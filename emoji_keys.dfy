/** The emoji renderer's cache keys and its result record. Both key
    orderings are strict orders under which two keys are incomparable
    exactly when they are equal, which is what std::map asks of a key
    type; so the caches can be modelled as Dafny maps. */
module EmojiKeys {
  import opened Basics

  /** EmojiFontRequirement: a pixel size (uint32_t) and the fonts to try,
      in order, each a family name or a file path. */
  datatype FontRequirement = FontRequirement(fontSize: nat, fonts: seq<string>)

  /** EmojiToRender: the code point, the font requirement and an ARGB colour. */
  datatype EmojiToRender = EmojiToRender(emoji: nat, font: FontRequirement, color: nat)

  /** PngData: the scaled bitmap's size and the PNG file in base64. The
      default value (all zero, empty text) is the renderer's "no result". */
  datatype PngData = PngData(width: nat, height: nat, pngBase64: string) {
    predicate IsValid() {
      width > 0 && height > 0 && pngBase64 != []
    }
  }

  const NoResult := PngData(0, 0, [])

  // ---------------------------------------------------------------------
  // std::vector<std::string>::operator< (lexicographical_compare)

  /** The first position where one side's element is less decides; a
      proper prefix is less. */
  predicate FontsLess(a: seq<string>, b: seq<string>)
    decreases |a|
  {
    if b == [] then false
    else if a == [] then true
    else StrLess(a[0], b[0]) || (!StrLess(b[0], a[0]) && FontsLess(a[1..], b[1..]))
  }

  lemma {:induction false} FontsLessIrreflexive(a: seq<string>)
    ensures !FontsLess(a, a)
    decreases |a|
  {
    if a != [] {
      StrLessIrreflexive(a[0]);
      FontsLessIrreflexive(a[1..]);
    }
  }

  lemma {:induction false} FontsLessTransitive(a: seq<string>, b: seq<string>, c: seq<string>)
    requires FontsLess(a, b) && FontsLess(b, c)
    ensures FontsLess(a, c)
    decreases |a|
  {
    if a != [] {
      StrLessTrichotomy(a[0], b[0]);
      StrLessTrichotomy(b[0], c[0]);
      if StrLess(a[0], b[0]) && StrLess(b[0], c[0]) {
        StrLessTransitive(a[0], b[0], c[0]);
      } else if StrLess(a[0], b[0]) {
        assert b[0] == c[0];
      } else if StrLess(b[0], c[0]) {
        assert a[0] == b[0];
      } else {
        assert a[0] == b[0] && b[0] == c[0];
        FontsLessTransitive(a[1..], b[1..], c[1..]);
        StrLessIrreflexive(a[0]);
      }
    }
  }

  /** Two font lists are incomparable exactly when they are equal. */
  lemma {:induction false} FontsLessTotal(a: seq<string>, b: seq<string>)
    ensures a == b <==> !FontsLess(a, b) && !FontsLess(b, a)
    decreases |a|
  {
    if a == b {
      FontsLessIrreflexive(a);
    } else if a != [] && b != [] {
      StrLessTrichotomy(a[0], b[0]);
      if a[0] == b[0] {
        assert a == [a[0]] + a[1..] && b == [b[0]] + b[1..];
        StrLessIrreflexive(a[0]);
        FontsLessTotal(a[1..], b[1..]);
      } else {
        StrLessAsymmetricBoth(a[0], b[0]);
      }
    }
  }

  lemma StrLessAsymmetricBoth(a: string, b: string)
    requires StrLess(a, b) || StrLess(b, a)
    ensures StrLess(a, b) <==> !StrLess(b, a)
  {
    if StrLess(a, b) {
      StrLessAsymmetric(a, b);
    } else {
      StrLessAsymmetric(b, a);
    }
  }

  // ---------------------------------------------------------------------
  // EmojiFontRequirement::operator<

  /** The font size decides first; equal sizes fall back to the font lists. */
  predicate FontLess(a: FontRequirement, b: FontRequirement) {
    if a.fontSize != b.fontSize then a.fontSize < b.fontSize
    else FontsLess(a.fonts, b.fonts)
  }

  /** FontLess is irreflexive and transitive, and incomparable requirements
      are equal. */
  lemma FontLessOrder(a: FontRequirement, b: FontRequirement, c: FontRequirement)
    ensures !FontLess(a, a)
    ensures FontLess(a, b) && FontLess(b, c) ==> FontLess(a, c)
    ensures a == b <==> !FontLess(a, b) && !FontLess(b, a)
  {
    FontsLessIrreflexive(a.fonts);
    FontsLessTotal(a.fonts, b.fonts);
    if FontLess(a, b) && FontLess(b, c) && a.fontSize == b.fontSize == c.fontSize {
      FontsLessTransitive(a.fonts, b.fonts, c.fonts);
    }
  }

  // ---------------------------------------------------------------------
  // EmojiToRender::operator<

  /** The code point decides first, then the colour, then the font. */
  predicate EmojiLess(a: EmojiToRender, b: EmojiToRender) {
    if a.emoji != b.emoji then a.emoji < b.emoji
    else if a.color != b.color then a.color < b.color
    else FontLess(a.font, b.font)
  }

  /** EmojiLess is irreflexive and transitive, and incomparable keys are
      equal: two requests share a cache entry only when they are the same. */
  lemma EmojiLessOrder(a: EmojiToRender, b: EmojiToRender, c: EmojiToRender)
    ensures !EmojiLess(a, a)
    ensures EmojiLess(a, b) && EmojiLess(b, c) ==> EmojiLess(a, c)
    ensures a == b <==> !EmojiLess(a, b) && !EmojiLess(b, a)
  {
    FontLessOrder(a.font, b.font, c.font);
  }

  /** The colour is compared before the font: a smaller colour wins even
      against a smaller font size. */
  lemma ColorBeforeFont()
    ensures EmojiLess(EmojiToRender(0x1F600, FontRequirement(40, []), 1),
                      EmojiToRender(0x1F600, FontRequirement(20, []), 2))
  {
  }
}
