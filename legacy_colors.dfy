/** The older colour map of the Xft output: the same named colours, only
    "#rrggbb" hex codes, and two caches, one of allocated X colours and one
    of Xft font colours. The server calls are function parameters. */
module LegacyColors {
  import opened Basics
  import opened StrUtils
  import opened X11Colors

  /** The byte of conversion i, or otherwise when that conversion did not happen. */
  function ScannedOr(values: seq<int>, i: nat, otherwise: Byte): Byte {
    if i < |values| then values[i] % 256 else otherwise
  }

  /** decodeRGBAColor as written: r, g and b are not initialised, so a pair
      that fails to scan leaves whatever the variable held; junk stands for
      those indeterminate values. */
  function DecodeLegacyColorAsWritten(name: string, junk: (Byte, Byte, Byte)): Rgba {
    if |name| > 0 && name[0] == '#' then
      if |name| == 7 then
        var v := ScanHex(name, 1, 3);
        Rgba(ScannedOr(v, 0, junk.0), ScannedOr(v, 1, junk.1), ScannedOr(v, 2, junk.2), DefaultAlpha)
      else DefaultColor
    else if name in NamedColors then NamedColors[name]
    else DefaultColor
  }

  /** As written, the colour of a malformed hex code depends on the
      indeterminate values. */
  lemma UninitialisedComponents()
    ensures DecodeLegacyColorAsWritten("#zzzzzz", (1, 2, 3)) == Rgba(1, 2, 3, DefaultAlpha)
    ensures DecodeLegacyColorAsWritten("#zzzzzz", (1, 2, 3)) != DecodeLegacyColorAsWritten("#zzzzzz", (4, 5, 6))
  {
    assert ScanHexField("#zzzzzz", 1) == None by {
      assert "#zzzzzz"[1..][0] == 'z';
    }
  }

  /** decodeRGBAColor with r, g and b starting at 0, as the newer colour map does. */
  function DecodeLegacyColor(name: string): (c: Rgba)
    ensures c == DecodeLegacyColorAsWritten(name, (0, 0, 0))
  {
    if |name| > 0 && name[0] == '#' then
      if |name| == 7 then
        var v := ScanHex(name, 1, 3);
        Rgba(Component(v, 0), Component(v, 1), Component(v, 2), DefaultAlpha)
      else DefaultColor
    else if name in NamedColors then NamedColors[name]
    else DefaultColor
  }

  /** Only "#rrggbb" is parsed; any other string starting with '#' is
      default white, without a name lookup. */
  lemma OnlySevenDigitCodes(name: string)
    requires |name| > 0 && name[0] == '#' && |name| != 7
    ensures DecodeLegacyColor(name) == DefaultColor
  {
  }

  /** Against the newer decoder: the two agree on everything except
      "#aarrggbb", which the older one does not parse. */
  lemma AgreesWithNewer(name: string)
    ensures |name| != 9 || name[0] != '#' ==> DecodeLegacyColor(name) == X11Colors.DecodeRgbaColor(name)
    ensures |name| == 9 && name[0] == '#' ==> DecodeLegacyColor(name) == DefaultColor
  {
    if |name| > 0 && name[0] == '#' && |name| != 7 && |name| != 9 {
      assert !IsHexCode(name);
      assert name !in NamedColors by {
        assert forall k :: k in NamedColors ==> k[0] != '#';
      }
    }
  }

  /** A malformed pair gives 0 for itself and every later component. */
  lemma FailedPairGivesZero(name: string)
    requires |name| == 7 && name[0] == '#'
    requires ScanHexField(name, 1) == None
    ensures DecodeLegacyColor(name) == Rgba(0, 0, 0, DefaultAlpha)
  {
  }

  // ---------------------------------------------------------------------
  // The caches

  /** An Xft font colour: the render colour asked for and the pixel the
      server allocated. */
  datatype FontColor = FontColor(color: RenderColor, pixel: bv64)

  /** createFontColor: the decoded colour's render colour handed to
      XftColorAllocValue (alloc), which may fail (the exception, None). */
  function CreateFontColor(name: string, alloc: RenderColor -> Option<bv64>): (r: Option<FontColor>)
    ensures var rc := ToRenderColor(DecodeLegacyColor(name));
            && (r.Some? <==> alloc(rc).Some?)
            && (r.Some? ==> r.value == FontColor(rc, alloc(rc).value))
  {
    var rc := ToRenderColor(DecodeLegacyColor(name));
    match alloc(rc)
    case None => None
    case Some(p) => Some(FontColor(rc, p))
  }

  /** The colour map: allocated X colours and Xft colours by lower-cased
      name, and how many allocations were asked of the server. */
  class LegacyColorMap {
    var known: map<string, XColor>
    var knownFont: map<string, FontColor>
    var allocations: nat

    /** Every cached name is lower-case. */
    predicate Valid()
      reads this
    {
      && (forall k :: k in known ==> ToLower(k) == k)
      && (forall k :: k in knownFont ==> ToLower(k) == k)
    }

    constructor()
      ensures Valid() && known == map[] && knownFont == map[] && allocations == 0
    {
      known := map[];
      knownFont := map[];
      allocations := 0;
    }

    /** get: the cached X colour of the lower-cased name, or a new one
        that is then cached. */
    method Get(name: string, alloc: XColor -> Option<XColor>) returns (c: Option<XColor>)
      requires Valid()
      modifies this
      ensures Valid() && knownFont == old(knownFont)
      ensures var key := ToLower(name);
              if key in old(known) then
                c == Some(old(known)[key]) && known == old(known) && allocations == old(allocations)
              else
                && c == CreateXColor(DecodeLegacyColor(key), alloc)
                && allocations == old(allocations) + 1
                && known == (if c.Some? then old(known)[key := c.value] else old(known))
    {
      var key := ToLower(name);
      if key in known {
        return Some(known[key]);
      }
      allocations := allocations + 1;
      c := CreateXColor(DecodeLegacyColor(key), alloc);
      if c.Some? {
        ToLowerIdempotent(name);
        known := known[key := c.value];
      }
    }

    /** getFontColor: the same memoisation over the font-colour cache. */
    method GetFontColor(name: string, alloc: RenderColor -> Option<bv64>) returns (c: Option<FontColor>)
      requires Valid()
      modifies this
      ensures Valid() && known == old(known)
      ensures var key := ToLower(name);
              if key in old(knownFont) then
                c == Some(old(knownFont)[key]) && knownFont == old(knownFont) && allocations == old(allocations)
              else
                && c == CreateFontColor(key, alloc)
                && allocations == old(allocations) + 1
                && knownFont == (if c.Some? then old(knownFont)[key := c.value] else old(knownFont))
    {
      var key := ToLower(name);
      if key in knownFont {
        return Some(knownFont[key]);
      }
      allocations := allocations + 1;
      c := CreateFontColor(key, alloc);
      if c.Some? {
        ToLowerIdempotent(name);
        knownFont := knownFont[key := c.value];
      }
    }
  }
}
