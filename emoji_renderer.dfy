/** The emoji renderer. A glyph bitmap is converted pixel by pixel into an
    RGBA bitmap, scaled to the requested height, written as a PNG file and
    encoded in base64; results are cached per request and opened faces per
    font name. A text's width is measured with the first font that has a
    glyph for every character.

    FreeType, fontconfig, the floating-point scaling and libpng are not
    modelled: they are the functions of a FontBackend value the renderer is
    built with. */
module EmojiRenderer {
  import opened Basics
  import opened EmojiKeys
  import Base64

  // ---------------------------------------------------------------------
  // The font library as seen by the renderer

  /** An opened face: whether it carries a colour bitmap table (CBDT) and
      the pixel heights of its fixed sizes (available_sizes[i].height). */
  datatype Face = Face(handle: nat, colorFont: bool, fixedHeights: seq<int>)

  /** How the glyph size was chosen: a fixed size by its index, or a pixel size. */
  datatype SizeRequest = FixedSize(index: nat) | PixelSize(pixels: nat)

  datatype PixelMode = Gray | Bgra | OtherMode

  /** A rendered glyph bitmap, one sequence of bytes per row (a row is
      `pitch` bytes of the FreeType buffer). */
  datatype GlyphBitmap = GlyphBitmap(width: nat, height: nat, mode: PixelMode, rows: seq<seq<Byte>>)

  /** The library functions the renderer calls, as functions of their
      arguments:
      - loadFace: fontconfig's file lookup for a family name and FT_New_Face;
        None when the face cannot be opened (always None without a library);
      - selectSize: whether FT_Select_Size succeeds for a fixed-size index;
      - charIndex: FT_Get_Char_Index, 0 when the face has no glyph;
      - render: FT_Load_Glyph with FT_LOAD_RENDER and FT_Render_Glyph, None
        when either fails;
      - advance: FT_Load_Glyph with FT_LOAD_NO_BITMAP and the glyph's
        advance.x in 26.6 fixed point, None when loading fails;
      - kerning: FT_Get_Kerning between two glyph indices, None on error;
      - scale: the floating-point part of scaleBitmapToFitHeight, the new
        width and the new pixels;
      - encodePng: encodePngRGBA, the bytes of the PNG file. */
  datatype FontBackend = FontBackend(
    libraryValid: bool,
    loadFace: string -> Option<Face>,
    selectSize: (Face, nat) -> bool,
    charIndex: (Face, nat) -> nat,
    render: (Face, SizeRequest, nat) -> Option<GlyphBitmap>,
    advance: (Face, SizeRequest, nat) -> Option<int>,
    kerning: (Face, nat, nat) -> Option<int>,
    scale: (nat, nat, seq<Byte>, Byte) -> (nat, seq<Byte>),
    encodePng: (nat, nat, seq<Byte>) -> seq<Byte>)

  /** Every row of a bitmap holds at least `len` bytes. */
  predicate RowsCover(rows: seq<seq<Byte>>, len: nat) {
    forall y :: 0 <= y < |rows| ==> len <= |rows[y]|
  }

  /** A GRAY bitmap has one byte per pixel, a BGRA bitmap four. */
  predicate WellShaped(g: GlyphBitmap) {
    |g.rows| == g.height && RowsCover(g.rows, if g.mode == Bgra then 4 * g.width else g.width)
  }

  /** What the renderer may rely on: no face without a library, and
      rendered bitmaps as large as they say. */
  ghost predicate BackendValid(ft: FontBackend) {
    (!ft.libraryValid ==> forall name :: ft.loadFace(name) == None)
    && (forall f, s, e :: ft.render(f, s, e).Some? ==> WellShaped(ft.render(f, s, e).value))
  }

  // ---------------------------------------------------------------------
  // Bitmap

  /** Bitmap: width by height RGBA pixels, four bytes each, all zero. */
  class Bitmap {
    const width: nat
    const height: nat
    const pixels: array<Byte>

    constructor(w: nat, h: nat)
      ensures width == w && height == h
      ensures pixels.Length == w * h * 4 && fresh(pixels)
      ensures forall i :: 0 <= i < pixels.Length ==> pixels[i] == 0
    {
      width, height := w, h;
      pixels := new Byte[w * h * 4](_ => 0);
    }
  }

  // ---------------------------------------------------------------------
  // Pixel conversion

  /** The channels of an ARGB colour: (c >> 16) & 0xFF, (c >> 8) & 0xFF, c & 0xFF. */
  function Red(c: nat): Byte { c / 0x1_0000 % 256 }
  function Green(c: nat): Byte { c / 0x100 % 256 }
  function Blue(c: nat): Byte { c % 256 }

  /** The first n pixels of a GRAY row: the colour, with the gray value as alpha. */
  function GrayRow(row: seq<Byte>, n: nat, color: nat): (r: seq<Byte>)
    requires n <= |row|
    ensures |r| == 4 * n
  {
    if n == 0 then []
    else GrayRow(row, n - 1, color) + [Red(color), Green(color), Blue(color), row[n - 1]]
  }

  /** The RGBA bytes of a whole GRAY bitmap, row after row. */
  function GrayImage(rows: seq<seq<Byte>>, w: nat, color: nat): (r: seq<Byte>)
    requires RowsCover(rows, w)
    ensures |r| == |rows| * w * 4
  {
    if rows == [] then []
    else
      NextRow(|rows| - 1, w);
      GrayImage(rows[..|rows| - 1], w, color) + GrayRow(rows[|rows| - 1], w, color)
  }

  /** The first n pixels of a BGRA row with blue and red swapped. */
  function BgraRow(row: seq<Byte>, n: nat): (r: seq<Byte>)
    requires 4 * n <= |row|
    ensures |r| == 4 * n
  {
    if n == 0 then []
    else
      var p := 4 * (n - 1);
      BgraRow(row, n - 1) + [row[p + 2], row[p + 1], row[p], row[p + 3]]
  }

  /** The RGBA bytes of a whole BGRA bitmap, row after row. */
  function BgraImage(rows: seq<seq<Byte>>, w: nat): (r: seq<Byte>)
    requires RowsCover(rows, 4 * w)
    ensures |r| == |rows| * w * 4
  {
    if rows == [] then []
    else
      NextRow(|rows| - 1, w);
      BgraImage(rows[..|rows| - 1], w) + BgraRow(rows[|rows| - 1], w)
  }

  lemma NextRow(y: nat, w: nat)
    ensures (y + 1) * w * 4 == y * w * 4 + w * 4
  {
  }

  /** A pixel of row y lies inside a bitmap of n rows. */
  lemma PixelInside(y: nat, x: nat, w: nat, n: nat)
    requires y < n && x < w
    ensures 0 <= y * w && (y * w + x) * 4 + 4 <= n * w * 4
  {
    MulMonotone(y + 1, n, w);
  }

  lemma MulMonotone(a: nat, b: nat, w: nat)
    requires a <= b
    ensures a * w <= b * w
  {
  }

  lemma {:induction false} GrayRowPixel(row: seq<Byte>, n: nat, color: nat, x: nat)
    requires x < n <= |row|
    ensures GrayRow(row, n, color)[4 * x..4 * x + 4] == [Red(color), Green(color), Blue(color), row[x]]
  {
    if x < n - 1 {
      GrayRowPixel(row, n - 1, color, x);
    }
  }

  /** Pixel x of row y of a converted GRAY bitmap is the colour's red,
      green and blue with the glyph's gray value as alpha. */
  lemma {:induction false} GrayPixel(rows: seq<seq<Byte>>, w: nat, color: nat, y: nat, x: nat)
    requires RowsCover(rows, w) && y < |rows| && x < w
    ensures (y * w + x) * 4 + 4 <= |rows| * w * 4
    ensures var i := (y * w + x) * 4;
            GrayImage(rows, w, color)[i..i + 4] == [Red(color), Green(color), Blue(color), rows[y][x]]
    decreases |rows|
  {
    PixelInside(y, x, w, |rows|);
    var n := |rows| - 1;
    var prefix := GrayImage(rows[..n], w, color);
    var last := GrayRow(rows[n], w, color);
    var i: nat := (y * w + x) * 4;
    assert GrayImage(rows, w, color) == prefix + last;
    assert |prefix| == n * w * 4;
    if y == n {
      GrayRowPixel(rows[n], w, color, x);
      SliceOfSecond(prefix, last, i, 4);
    } else {
      PixelInside(y, x, w, n);
      GrayPixel(rows[..n], w, color, y, x);
      SliceOfFirst(prefix, last, i, 4);
    }
  }

  lemma {:induction false} BgraRowPixel(row: seq<Byte>, n: nat, x: nat)
    requires x < n && 4 * n <= |row|
    ensures BgraRow(row, n)[4 * x..4 * x + 4] == [row[4 * x + 2], row[4 * x + 1], row[4 * x], row[4 * x + 3]]
  {
    if x < n - 1 {
      BgraRowPixel(row, n - 1, x);
    }
  }

  /** Pixel x of row y of a converted BGRA bitmap holds the glyph's bytes
      of that pixel reordered from blue, green, red, alpha to red, green,
      blue, alpha. */
  lemma {:induction false} BgraPixel(rows: seq<seq<Byte>>, w: nat, y: nat, x: nat)
    requires RowsCover(rows, 4 * w) && y < |rows| && x < w
    ensures (y * w + x) * 4 + 4 <= |rows| * w * 4
    ensures var i := (y * w + x) * 4;
            BgraImage(rows, w)[i..i + 4] == [rows[y][4 * x + 2], rows[y][4 * x + 1], rows[y][4 * x], rows[y][4 * x + 3]]
    decreases |rows|
  {
    PixelInside(y, x, w, |rows|);
    var n := |rows| - 1;
    var prefix := BgraImage(rows[..n], w);
    var last := BgraRow(rows[n], w);
    var i: nat := (y * w + x) * 4;
    assert BgraImage(rows, w) == prefix + last;
    assert |prefix| == n * w * 4;
    if y == n {
      BgraRowPixel(rows[n], w, x);
      SliceOfSecond(prefix, last, i, 4);
    } else {
      PixelInside(y, x, w, n);
      BgraPixel(rows[..n], w, y, x);
      SliceOfFirst(prefix, last, i, 4);
    }
  }

  lemma SliceOfFirst<T>(a: seq<T>, b: seq<T>, i: nat, k: nat)
    requires i + k <= |a|
    ensures (a + b)[i..i + k] == a[i..i + k]
  {
  }

  lemma SliceOfSecond<T>(a: seq<T>, b: seq<T>, i: nat, k: nat)
    requires |a| <= i && i + k <= |a| + |b|
    ensures (a + b)[i..i + k] == b[i - |a|..i - |a| + k]
  {
  }

  /** Row y starts y * w pixels in, and a bitmap of h rows has room for it. */
  lemma RowInside(y: nat, w: nat, h: nat)
    requires y < h
    ensures (y + 1) * w * 4 <= w * h * 4
    ensures (y + 1) * w * 4 == y * w * 4 + w * 4
  {
    MulMonotone(y + 1, h, w);
  }

  lemma Transposed(w: nat, h: nat)
    ensures h * w * 4 == w * h * 4
  {
  }

  lemma AppendAssoc<T>(a: seq<T>, b: seq<T>, c: seq<T>)
    ensures (a + b) + c == a + (b + c)
  {
  }

  /** Writes the four bytes of pixel `idx / 4`; the bytes before it stay. */
  method PutPixel(a: array<Byte>, idx: nat, r: Byte, g: Byte, b: Byte, alpha: Byte)
    requires idx + 4 <= a.Length
    modifies a
    ensures a[..idx + 4] == old(a[..idx]) + [r, g, b, alpha]
  {
    a[idx + 0] := r;
    a[idx + 1] := g;
    a[idx + 2] := b;
    a[idx + 3] := alpha;
  }

  /** The inner GRAY loop, over the pixels of row y. */
  method FillGrayRow(a: array<Byte>, w: nat, h: nat, row: seq<Byte>, color: nat, y: nat)
    requires a.Length == w * h * 4 && y < h && w <= |row|
    modifies a
    ensures a[..(y + 1) * w * 4] == old(a[..y * w * 4]) + GrayRow(row, w, color)
  {
    RowInside(y, w, h);
    var x := 0;
    while x < w
      invariant x <= w
      invariant a[..(y * w + x) * 4] == old(a[..y * w * 4]) + GrayRow(row, x, color)
    {
      var v := row[x];
      var idx := (y * w + x) * 4;
      PutPixel(a, idx, Red(color), Green(color), Blue(color), v);
      AppendAssoc(old(a[..y * w * 4]), GrayRow(row, x, color), [Red(color), Green(color), Blue(color), v]);
      x := x + 1;
    }
  }

  /** The FT_PIXEL_MODE_GRAY loops. */
  method FillGray(bmp: Bitmap, rows: seq<seq<Byte>>, color: nat)
    requires bmp.pixels.Length == bmp.width * bmp.height * 4
    requires |rows| == bmp.height && RowsCover(rows, bmp.width)
    modifies bmp.pixels
    ensures bmp.pixels[..] == GrayImage(rows, bmp.width, color)
  {
    var w, h := bmp.width, bmp.height;
    var y := 0;
    while y < h
      invariant y <= h
      invariant y * w * 4 <= w * h * 4
      invariant bmp.pixels[..y * w * 4] == GrayImage(rows[..y], w, color)
    {
      FillGrayRow(bmp.pixels, w, h, rows[y], color, y);
      RowInside(y, w, h);
      assert rows[..y + 1][..y] == rows[..y];
      y := y + 1;
    }
    Transposed(w, h);
    assert rows[..h] == rows;
  }

  /** The inner BGRA loop, over the pixels of row y. */
  method FillBgraRow(a: array<Byte>, w: nat, h: nat, src: seq<Byte>, y: nat)
    requires a.Length == w * h * 4 && y < h && 4 * w <= |src|
    modifies a
    ensures a[..(y + 1) * w * 4] == old(a[..y * w * 4]) + BgraRow(src, w)
  {
    RowInside(y, w, h);
    var x := 0;
    while x < w
      invariant x <= w
      invariant a[..y * w * 4 + 4 * x] == old(a[..y * w * 4]) + BgraRow(src, x)
    {
      var p := [src[4 * x + 2], src[4 * x + 1], src[4 * x], src[4 * x + 3]];
      PutPixel(a, y * w * 4 + 4 * x, p[0], p[1], p[2], p[3]);
      AppendAssoc(old(a[..y * w * 4]), BgraRow(src, x), p);
      x := x + 1;
    }
  }

  /** The FT_PIXEL_MODE_BGRA loops. */
  method FillBgra(bmp: Bitmap, rows: seq<seq<Byte>>)
    requires bmp.pixels.Length == bmp.width * bmp.height * 4
    requires |rows| == bmp.height && RowsCover(rows, 4 * bmp.width)
    modifies bmp.pixels
    ensures bmp.pixels[..] == BgraImage(rows, bmp.width)
  {
    var w, h := bmp.width, bmp.height;
    var y := 0;
    while y < h
      invariant y <= h
      invariant y * w * 4 <= w * h * 4
      invariant bmp.pixels[..y * w * 4] == BgraImage(rows[..y], w)
    {
      FillBgraRow(bmp.pixels, w, h, rows[y], y);
      RowInside(y, w, h);
      assert rows[..y + 1][..y] == rows[..y];
      y := y + 1;
    }
    Transposed(w, h);
    assert rows[..h] == rows;
  }

  // ---------------------------------------------------------------------
  // Choosing a fixed size

  /** std::abs of the difference between the requested size and a height. */
  function Distance(target: int, height: int): nat {
    if target >= height then target - height else height - target
  }

  /** The index of the first fixed size whose height is closest to the target. */
  function ClosestFixedSize(target: int, heights: seq<int>): (i: nat)
    requires heights != []
    ensures i < |heights|
  {
    if |heights| == 1 then 0
    else
      var j := ClosestFixedSize(target, heights[..|heights| - 1]);
      if Distance(target, heights[|heights| - 1]) < Distance(target, heights[j]) then |heights| - 1 else j
  }

  /** No height is closer than the chosen one, every earlier height is
      farther, and these two facts single it out. */
  lemma {:induction false} ClosestIsFirstNearest(target: int, heights: seq<int>)
    requires heights != []
    ensures var b := ClosestFixedSize(target, heights);
            && (forall k :: 0 <= k < |heights| ==> Distance(target, heights[b]) <= Distance(target, heights[k]))
            && (forall k :: 0 <= k < b ==> Distance(target, heights[b]) < Distance(target, heights[k]))
    decreases |heights|
  {
    if |heights| > 1 {
      var init := heights[..|heights| - 1];
      ClosestIsFirstNearest(target, init);
      assert forall k :: 0 <= k < |init| ==> heights[k] == init[k];
    }
  }

  /** At most one index is nearest with every earlier one farther. */
  lemma FirstNearestUnique(target: int, heights: seq<int>, b: nat, c: nat)
    requires b < |heights| && c < |heights|
    requires forall k :: 0 <= k < |heights| ==> Distance(target, heights[b]) <= Distance(target, heights[k])
    requires forall k :: 0 <= k < b ==> Distance(target, heights[b]) < Distance(target, heights[k])
    requires forall k :: 0 <= k < |heights| ==> Distance(target, heights[c]) <= Distance(target, heights[k])
    requires forall k :: 0 <= k < c ==> Distance(target, heights[c]) < Distance(target, heights[k])
    ensures b == c
  {
    var db, dc := Distance(target, heights[b]), Distance(target, heights[c]);
    assert b >= c;
    assert c >= b;
  }

  /** The best_match loop over available_sizes. */
  method BestFixedSize(target: int, heights: seq<int>) returns (best: nat)
    requires heights != []
    ensures best == ClosestFixedSize(target, heights)
  {
    best := 0;
    var diff := Distance(target, heights[0]);
    var i := 1;
    while i < |heights|
      invariant 1 <= i <= |heights|
      invariant best == ClosestFixedSize(target, heights[..i])
      invariant diff == Distance(target, heights[best])
    {
      var ndiff := Distance(target, heights[i]);
      assert heights[..i + 1][..i] == heights[..i];
      if ndiff < diff {
        best := i;
        diff := ndiff;
      }
      i := i + 1;
    }
    assert heights[..i] == heights;
  }

  /** The size a face is set to: the nearest fixed size of a colour font
      (None when it has none or selecting it fails), else the pixel size. */
  function SizeFor(ft: FontBackend, f: Face, size: nat): Option<SizeRequest> {
    if !f.colorFont then Some(PixelSize(size))
    else if f.fixedHeights == [] then None
    else
      var best := ClosestFixedSize(ToInt32(size), f.fixedHeights);
      if ft.selectSize(f, best) then Some(FixedSize(best)) else None
  }

  method ChooseSize(ft: FontBackend, f: Face, size: nat) returns (req: Option<SizeRequest>)
    ensures req == SizeFor(ft, f, size)
  {
    if !f.colorFont {
      return Some(PixelSize(size));
    }
    if |f.fixedHeights| == 0 {
      return None;
    }
    var best := BestFixedSize(ToInt32(size), f.fixedHeights);
    if !ft.selectSize(f, best) {
      return None;
    }
    return Some(FixedSize(best));
  }

  // ---------------------------------------------------------------------
  // Rendering one emoji

  /** What one font does for a request: nothing usable, a bitmap in a pixel
      mode the converter does not handle, or a finished image. */
  datatype Attempt = Skip | Unsupported | Drawn(png: PngData)

  /** The scaled bitmap written as PNG and base64 (the height is the
      requested size narrowed to an unsigned char). */
  function Finished(ft: FontBackend, w: nat, h: nat, pixels: seq<Byte>, fontSize: nat): (p: PngData)
    ensures p.height == fontSize % 256
  {
    var desired: Byte := fontSize % 256;
    var (newWidth, scaled) := ft.scale(w, h, pixels, desired);
    PngData(newWidth, desired, Base64.Encode(ft.encodePng(newWidth, desired, scaled)))
  }

  /** The RGBA bytes of a GRAY or BGRA glyph bitmap. */
  function Converted(g: GlyphBitmap, color: nat): (r: seq<Byte>)
    requires WellShaped(g) && g.mode != OtherMode
    ensures |r| == g.height * g.width * 4
  {
    if g.mode == Gray then GrayImage(g.rows, g.width, color) else BgraImage(g.rows, g.width)
  }

  /** The image a glyph bitmap in a handled pixel mode becomes. */
  function Drawing(ft: FontBackend, g: GlyphBitmap, what: EmojiToRender): PngData
    requires WellShaped(g) && g.mode != OtherMode
  {
    Finished(ft, g.width, g.height, Converted(g, what.color), what.font.fontSize)
  }

  /** The glyph bitmap a face gives for the request: none when no size
      can be set, the face has no glyph for the code point, rendering fails
      or the bitmap is empty. */
  function GlyphFor(ft: FontBackend, f: Face, what: EmojiToRender): (r: Option<GlyphBitmap>)
    requires BackendValid(ft)
    ensures r.Some? ==> WellShaped(r.value) && r.value.width > 0 && r.value.height > 0
  {
    match SizeFor(ft, f, what.font.fontSize)
    case None => None
    case Some(req) =>
      var gi := ft.charIndex(f, what.emoji);
      if gi == 0 then None
      else match ft.render(f, req, gi)
        case None => None
        case Some(g) => if g.width == 0 || g.height == 0 then None else Some(g)
  }

  /** One iteration of the font loop of renderToPng, with the face already open. */
  function AttemptFace(ft: FontBackend, f: Face, what: EmojiToRender): Attempt
    requires BackendValid(ft)
  {
    match GlyphFor(ft, f, what)
    case None => Skip
    case Some(g) => if g.mode == OtherMode then Unsupported else Drawn(Drawing(ft, g, what))
  }

  /** The face's glyph for the request: the size, the glyph index and the
      rendered bitmap, each step giving up on failure. */
  method LoadGlyph(ft: FontBackend, f: Face, what: EmojiToRender) returns (glyph: Option<GlyphBitmap>)
    requires BackendValid(ft)
    ensures glyph == GlyphFor(ft, f, what)
  {
    var req := ChooseSize(ft, f, what.font.fontSize);
    if req.None? {
      return None;
    }
    var gi := ft.charIndex(f, what.emoji);
    if gi == 0 {
      return None;
    }
    glyph := ft.render(f, req.value, gi);
    if glyph.Some? && (glyph.value.width == 0 || glyph.value.height == 0) {
      return None;
    }
  }

  function AttemptFont(ft: FontBackend, name: string, what: EmojiToRender): Attempt
    requires BackendValid(ft)
  {
    match ft.loadFace(name)
    case None => Skip
    case Some(f) => AttemptFace(ft, f, what)
  }

  /** The cache after one attempt: untouched when the font was skipped; an
      entry for the request (a default one if it was absent) once the glyph
      had a bitmap, holding the image when one was drawn. */
  function Cached(cache: map<EmojiToRender, PngData>, what: EmojiToRender, a: Attempt): map<EmojiToRender, PngData> {
    match a
    case Skip => cache
    case Unsupported => cache[what := if what in cache then cache[what] else NoResult]
    case Drawn(p) => cache[what := p]
  }

  /** The outcome of the font loop from font i on: the first image drawn,
      and whether some font before it reached an unsupported pixel mode. */
  function RenderFrom(ft: FontBackend, what: EmojiToRender, i: nat): (Option<PngData>, bool)
    requires BackendValid(ft)
    decreases |what.font.fonts| - i
  {
    if i >= |what.font.fonts| then (None, false)
    else match AttemptFont(ft, what.font.fonts[i], what)
      case Drawn(p) => (Some(p), false)
      case Unsupported => (RenderFrom(ft, what, i + 1).0, true)
      case Skip => RenderFrom(ft, what, i + 1)
  }

  /** An outcome with an unsupported mode met before it, if `touched`. */
  function Joined(touched: bool, outcome: (Option<PngData>, bool)): (Option<PngData>, bool) {
    (outcome.0, touched || outcome.1)
  }

  /** A font that draws nothing passes the loop on to the next font. */
  lemma RenderStep(ft: FontBackend, what: EmojiToRender, i: nat, a: Attempt, touched: bool)
    requires BackendValid(ft) && i < |what.font.fonts|
    requires a == AttemptFont(ft, what.font.fonts[i], what) && !a.Drawn?
    ensures Joined(touched, RenderFrom(ft, what, i)) == Joined(touched || a.Unsupported?, RenderFrom(ft, what, i + 1))
  {
  }

  /** One attempt of the font loop on a cache that has the request's
      default entry exactly when an earlier font was unsupported. */
  lemma CachedStep(cache: map<EmojiToRender, PngData>, what: EmojiToRender, a: Attempt, touched: bool)
    requires what !in cache
    ensures a.Drawn? ==> Cached(if touched then cache[what := NoResult] else cache, what, a) == cache[what := a.png]
    ensures !a.Drawn? ==> Cached(if touched then cache[what := NoResult] else cache, what, a)
                          == if touched || a.Unsupported? then cache[what := NoResult] else cache
  {
    if touched && a.Drawn? {
      assert cache[what := NoResult][what := a.png] == cache[what := a.png];
    }
  }

  /** The cache after the font loop: the image drawn, else the default
      entry created once a font reached an unsupported pixel mode. */
  function CacheAfter(cache: map<EmojiToRender, PngData>, what: EmojiToRender, outcome: (Option<PngData>, bool)): map<EmojiToRender, PngData> {
    if outcome.0.Some? then cache[what := outcome.0.value]
    else if outcome.1 then cache[what := NoResult]
    else cache
  }

  /** Converts a glyph bitmap and finishes the image. */
  method DrawGlyph(ft: FontBackend, g: GlyphBitmap, what: EmojiToRender) returns (p: PngData)
    requires WellShaped(g) && g.mode != OtherMode
    ensures p == Drawing(ft, g, what)
  {
    var bmp := new Bitmap(g.width, g.height);
    if g.mode == Gray {
      FillGray(bmp, g.rows, what.color);
    } else {
      FillBgra(bmp, g.rows);
    }
    var desired: Byte := what.font.fontSize % 256;
    var (newWidth, scaled) := ft.scale(g.width, g.height, bmp.pixels[..], desired);
    var text := Base64.EncodeBase64(ft.encodePng(newWidth, desired, scaled));
    p := PngData(newWidth, desired, text);
  }

  /** A drawn image is valid exactly when the scaled width and the height
      are positive and the PNG file is not empty: base64 text is empty only
      for empty data. */
  lemma FinishedValid(ft: FontBackend, w: nat, h: nat, pixels: seq<Byte>, fontSize: nat)
    ensures var desired: Byte := fontSize % 256;
            var (newWidth, scaled) := ft.scale(w, h, pixels, desired);
            (Finished(ft, w, h, pixels, fontSize).IsValid()
             <==> newWidth > 0 && fontSize % 256 != 0 && ft.encodePng(newWidth, desired, scaled) != [])
  {
    var desired: Byte := fontSize % 256;
    var (newWidth, scaled) := ft.scale(w, h, pixels, desired);
    Base64.EncodeShape(ft.encodePng(newWidth, desired, scaled));
  }

  /** A font size that is a multiple of 256 gives an image of height zero,
      which is not valid. */
  lemma WrappedSizeInvalid(ft: FontBackend, w: nat, h: nat, pixels: seq<Byte>, fontSize: nat)
    requires fontSize % 256 == 0
    ensures !Finished(ft, w, h, pixels, fontSize).IsValid()
  {
  }

  // ---------------------------------------------------------------------
  // Measuring a text

  /** The pen loop of computeWidth from character i on, with the pen at
      `pen` and the previous glyph `prev` (0 for none); None when a
      character has no glyph or its glyph does not load. Advances and
      kerning are 26.6 fixed point, shifted right by 6 (a floor). */
  function PenFrom(ft: FontBackend, f: Face, req: SizeRequest, text: seq<nat>, i: nat, pen: int, prev: nat): Option<int>
    decreases |text| - i
  {
    if i >= |text| then Some(pen)
    else
      var gi := ft.charIndex(f, text[i]);
      if gi == 0 then None
      else match ft.advance(f, req, gi)
        case None => None
        case Some(adv) =>
          var moved := pen + adv / 64;
          var kerned := if prev != 0 && ft.kerning(f, prev, gi).Some? then moved + ft.kerning(f, prev, gi).value / 64 else moved;
          PenFrom(ft, f, req, text, i + 1, kerned, gi)
  }

  method MeasurePen(ft: FontBackend, f: Face, req: SizeRequest, text: seq<nat>) returns (allOk: bool, pen: int)
    ensures allOk <==> PenFrom(ft, f, req, text, 0, 0, 0).Some?
    ensures allOk ==> pen == PenFrom(ft, f, req, text, 0, 0, 0).value
  {
    pen := 0;
    var prev := 0;
    allOk := true;
    var i := 0;
    while i < |text|
      invariant i <= |text|
      invariant PenFrom(ft, f, req, text, 0, 0, 0) == PenFrom(ft, f, req, text, i, pen, prev)
    {
      var gi := ft.charIndex(f, text[i]);
      if gi == 0 {
        allOk := false;
        break;
      }
      var adv := ft.advance(f, req, gi);
      if adv.None? {
        allOk := false;
        break;
      }
      pen := pen + adv.value / 64;
      if prev != 0 {
        var kern := ft.kerning(f, prev, gi);
        if kern.Some? {
          pen := pen + kern.value / 64;
        }
      }
      prev := gi;
      i := i + 1;
    }
  }

  /** The pen position a font gives, if it measures the whole text. */
  function Measured(ft: FontBackend, name: string, size: nat, text: seq<nat>): Option<int> {
    match ft.loadFace(name)
    case None => None
    case Some(f) =>
      match SizeFor(ft, f, size)
      case None => None
      case Some(req) => PenFrom(ft, f, req, text, 0, 0, 0)
  }

  datatype TextFontWidth = TextFontWidth(computedWidth: nat, fontUsedToMeasure: string)

  const U32: nat := 0x1_0000_0000

  /** computeWidth from font i on. */
  function WidthFrom(ft: FontBackend, font: FontRequirement, text: seq<nat>, i: nat): TextFontWidth
    decreases |font.fonts| - i
  {
    if i >= |font.fonts| then TextFontWidth((|text| % U32) * font.fontSize % U32, [])
    else match Measured(ft, font.fonts[i], font.fontSize, text)
      case Some(pen) => TextFontWidth(pen % U32, font.fonts[i])
      case None => WidthFrom(ft, font, text, i + 1)
  }

  /** The width comes from the first font that measures the whole text,
      with the pen position cast to unsigned int, and that font is named. */
  lemma {:induction false} WidthOfFirstMeasuring(ft: FontBackend, font: FontRequirement, text: seq<nat>, i: nat, k: nat)
    requires i <= k < |font.fonts|
    requires Measured(ft, font.fonts[k], font.fontSize, text).Some?
    requires forall j :: i <= j < k ==> Measured(ft, font.fonts[j], font.fontSize, text).None?
    ensures WidthFrom(ft, font, text, i)
            == TextFontWidth(Measured(ft, font.fonts[k], font.fontSize, text).value % U32, font.fonts[k])
    decreases k - i
  {
    if i < k {
      WidthOfFirstMeasuring(ft, font, text, i + 1, k);
    }
  }

  /** When no font measures the text, the width is the number of
      characters times the font size, in 32-bit unsigned arithmetic, and no
      font is named. */
  lemma {:induction false} WidthFallback(ft: FontBackend, font: FontRequirement, text: seq<nat>, i: nat)
    requires forall j :: i <= j < |font.fonts| ==> Measured(ft, font.fonts[j], font.fontSize, text).None?
    ensures WidthFrom(ft, font, text, i) == TextFontWidth((|text| % U32) * font.fontSize % U32, [])
    decreases |font.fonts| - i
  {
    if i < |font.fonts| {
      WidthFallback(ft, font, text, i + 1);
    }
  }

  // ---------------------------------------------------------------------
  // The renderer object

  /** EmojiRenderer with its FtLibrary: the faces opened so far, by font
      name, and the images rendered so far, by request. */
  class Renderer {
    const ft: FontBackend
    var faces: map<string, Face>
    var emojies: map<EmojiToRender, PngData>

    /** A cached face is the face the name opens. */
    ghost predicate Valid()
      reads this`faces
    {
      BackendValid(ft) && forall name :: name in faces ==> ft.loadFace(name) == Some(faces[name])
    }

    constructor(ft: FontBackend)
      requires BackendValid(ft)
      ensures Valid() && this.ft == ft
      ensures faces == map[] && emojies == map[]
    {
      this.ft := ft;
      faces := map[];
      emojies := map[];
    }

    /** FtLibrary::getFace: a cached face, else a newly opened one, which
        is cached only when opening succeeded. */
    method GetFace(name: string) returns (face: Option<Face>)
      requires Valid()
      modifies this
      ensures Valid()
      ensures face == ft.loadFace(name)
      ensures faces == if name in old(faces) || face.None? then old(faces) else old(faces)[name := face.value]
      ensures emojies == old(emojies)
    {
      if name in faces {
        return Some(faces[name]);
      }
      face := ft.loadFace(name);
      if face.Some? {
        faces := faces[name := face.value];
      }
    }

    /** One iteration of the font loop of renderToPng. */
    method TryFont(name: string, what: EmojiToRender) returns (a: Attempt)
      requires Valid()
      modifies this
      ensures Valid() && old(faces).Keys <= faces.Keys
      ensures a == AttemptFont(ft, name, what)
      ensures emojies == Cached(old(emojies), what, a)
    {
      var face := GetFace(name);
      if face.None? {
        return Skip;
      }
      a := TryFace(face.value, what);
    }

    /** The rest of the iteration once the face is open. The request's
        cache entry is created (a default one if it was absent) as soon as
        the glyph has a bitmap, before its pixel mode is looked at. */
    method TryFace(f: Face, what: EmojiToRender) returns (a: Attempt)
      requires Valid()
      modifies this
      ensures Valid() && faces == old(faces)
      ensures a == AttemptFace(ft, f, what)
      ensures emojies == Cached(old(emojies), what, a)
    {
      var glyph := LoadGlyph(ft, f, what);
      if glyph.None? {
        return Skip;
      }
      var g := glyph.value;
      if what !in emojies {
        emojies := emojies[what := NoResult];
      }
      if g.mode == OtherMode {
        return Unsupported;
      }
      var result := DrawGlyph(ft, g, what);
      emojies := emojies[what := result];
      return Drawn(result);
    }

    /** EmojiRenderer::renderToPng. Code point 0 or a missing library give
        the "no result" image; a cached image is returned as it is;
        otherwise the fonts are tried in order and the first image drawn
        is cached and returned. A font whose bitmap has an unsupported
        pixel mode leaves a default (invalid) entry in the cache, which
        later calls return. */
    method RenderToPng(what: EmojiToRender) returns (r: PngData)
      requires Valid()
      modifies this
      ensures Valid() && old(faces).Keys <= faces.Keys
      ensures what.emoji == 0 || !ft.libraryValid ==> r == NoResult && emojies == old(emojies) && faces == old(faces)
      ensures what.emoji != 0 && ft.libraryValid && what in old(emojies) ==>
                r == old(emojies)[what] && emojies == old(emojies) && faces == old(faces)
      ensures what.emoji != 0 && ft.libraryValid && what !in old(emojies) ==>
                var outcome := RenderFrom(ft, what, 0);
                && r == (if outcome.0.Some? then outcome.0.value else NoResult)
                && emojies == CacheAfter(old(emojies), what, outcome)
    {
      if what.emoji == 0 || !ft.libraryValid {
        return NoResult;
      }
      if what in emojies {
        return emojies[what];
      }
      r := RenderFonts(what);
    }

    /** The font loop of renderToPng, for a request not yet cached. */
    method RenderFonts(what: EmojiToRender) returns (r: PngData)
      requires Valid() && what !in emojies
      modifies this
      ensures Valid() && old(faces).Keys <= faces.Keys
      ensures var outcome := RenderFrom(ft, what, 0);
              && r == (if outcome.0.Some? then outcome.0.value else NoResult)
              && emojies == CacheAfter(old(emojies), what, outcome)
    {
      ghost var cache := emojies;
      var fonts := what.font.fonts;
      var i := 0;
      ghost var touched := false;
      ghost var outcome := RenderFrom(ft, what, 0);
      while i < |fonts|
        invariant i <= |fonts|
        invariant Valid() && old(faces).Keys <= faces.Keys
        invariant outcome == Joined(touched, RenderFrom(ft, what, i))
        invariant emojies == if touched then cache[what := NoResult] else cache
      {
        var a := TryFont(fonts[i], what);
        assert a == AttemptFont(ft, what.font.fonts[i], what);
        CachedStep(cache, what, a, touched);
        if a.Drawn? {
          assert RenderFrom(ft, what, i) == (Some(a.png), false);
          return a.png;
        }
        RenderStep(ft, what, i, a, touched);
        touched := touched || a.Unsupported?;
        i := i + 1;
      }
      assert RenderFrom(ft, what, i) == (None, false);
      return NoResult;
    }

    /** EmojiRenderer::computeWidth: the first font that has a loadable
        glyph for every character measures the text. */
    method ComputeWidth(font: FontRequirement, text: seq<nat>) returns (r: TextFontWidth)
      requires Valid()
      modifies this
      ensures Valid() && old(faces).Keys <= faces.Keys && emojies == old(emojies)
      ensures r == WidthFrom(ft, font, text, 0)
    {
      var i := 0;
      while i < |font.fonts|
        invariant i <= |font.fonts|
        invariant Valid() && old(faces).Keys <= faces.Keys && emojies == old(emojies)
        invariant WidthFrom(ft, font, text, 0) == WidthFrom(ft, font, text, i)
      {
        var face := GetFace(font.fonts[i]);
        if face.Some? {
          var req := ChooseSize(ft, face.value, font.fontSize);
          if req.Some? {
            var allOk, pen := MeasurePen(ft, face.value, req.value, text);
            if allOk {
              return TextFontWidth(pen % U32, font.fonts[i]);
            }
          }
        }
        i := i + 1;
      }
      return TextFontWidth((|text| % U32) * font.fontSize % U32, []);
    }
  }
}
