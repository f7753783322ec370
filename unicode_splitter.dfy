/** The lenient UTF-8 cursor (UnicodeSymbolsIterator) and the splitter that
    cuts a byte string into runs of one glyph class (makeSpans). Bytes are
    the unsigned values of the string's chars. */
module UnicodeSplitter {
  import opened Basics

  datatype GlyphClass = Latin1 | Dingbat | BMP | Astral | NotSet

  datatype SpanPosition = FirstSpan | InsideStringSpan | PositionNotSet

  /** Byte range [begin, end) of a run of symbols of one class. */
  datatype SpanRange = SpanRange(begin: nat, end: nat, cls: GlyphClass, position: SpanPosition)

  predicate IsValid(r: SpanRange) {
    r.end > r.begin
  }

  /** The classes the SVG text renderer cannot draw itself. */
  predicate NeedsCustomRender(cls: GlyphClass) {
    cls == Astral || cls == Dingbat
  }

  /** classify(symbol): Latin-1, the Dingbats block, the rest of the BMP, or astral. */
  function Classify(symbol: nat): (c: GlyphClass)
    ensures c != NotSet
    ensures c == Latin1 <==> symbol <= 0xFF
    ensures c == Dingbat <==> 0x2700 <= symbol <= 0x27BF
    ensures c == BMP <==> 0xFF < symbol <= 0xFFFF && !(0x2700 <= symbol <= 0x27BF)
    ensures c == Astral <==> symbol > 0xFFFF
    ensures NeedsCustomRender(c) <==> symbol > 0xFFFF || 0x2700 <= symbol <= 0x27BF
  {
    if symbol <= 0xFF then Latin1
    else if 0x2700 <= symbol <= 0x27BF then Dingbat
    else if symbol <= 0xFFFF then BMP
    else Astral
  }

  /** The lead byte decides the sequence length and the payload bits it
      carries; (b & 0xE0) == 0xC0 is 0xC0 <= b < 0xE0, and b & 0x1F is b - 0xC0
      there (likewise for the three- and four-byte leads). Anything else,
      continuation bytes included, stands for U+FFFD with length 1. */
  function Lead(b: Byte): (r: (nat, nat))
    ensures 1 <= r.1 <= 4
  {
    if b < 0x80 then (b, 1)
    else if 0xC0 <= b < 0xE0 then (b - 0xC0, 2)
    else if 0xE0 <= b < 0xF0 then (b - 0xE0, 3)
    else if 0xF0 <= b < 0xF8 then (b - 0xF0, 4)
    else (0xFFFD, 1)
  }

  /** The continuation loop: appends the low six bits of each following byte,
      stopping at the sequence length or the end of the string, without
      checking that the bytes are continuation bytes. */
  function Continue(s: seq<Byte>, pos: nat, j: nat, len: nat, cp: nat): nat
    decreases len - j
  {
    if j < len && pos + j < |s| then Continue(s, pos, j + 1, len, cp * 64 + s[pos + j] % 64)
    else cp
  }

  /** The symbol that starts at byte pos and the number of bytes next() skips. */
  function DecodeAt(s: seq<Byte>, pos: nat): (r: (nat, nat))
    requires pos < |s|
    ensures 1 <= r.1 <= 4
  {
    var (cp0, len) := Lead(s[pos]);
    (Continue(s, pos, 1, len, cp0), len)
  }

  /** UnicodeSymbolsIterator: a cursor over the bytes of src. The SVG
      builder's Char32Iter is the same cursor with its own class table, so
      the table is a constant of the object. */
  class UnicodeSymbolsIterator {
    const src: seq<Byte>
    const classify: nat -> GlyphClass
    var nextByteIndex: nat
    var cp: nat
    var seqLen: nat

    predicate Valid()
      reads this
    {
      seqLen <= nextByteIndex
    }

    constructor(s: seq<Byte>, table: nat -> GlyphClass)
      ensures src == s && classify == table && nextByteIndex == 0 && cp == 0 && seqLen == 0
      ensures Valid()
    {
      src := s;
      classify := table;
      nextByteIndex := 0;
      cp := 0;
      seqLen := 0;
    }

    /** next(): at the end nothing changes and the result is false; otherwise
        the cursor moves onto the symbol decoded at the old index. */
    method Next() returns (ok: bool)
      requires Valid()
      modifies this
      ensures Valid()
      ensures ok <==> old(nextByteIndex) < |src|
      ensures !ok ==> nextByteIndex == old(nextByteIndex) && cp == old(cp) && seqLen == old(seqLen)
      ensures ok ==> (cp, seqLen) == DecodeAt(src, old(nextByteIndex))
      ensures ok ==> nextByteIndex == old(nextByteIndex) + seqLen
    {
      if nextByteIndex >= |src| {
        return false;
      }
      var byte := src[nextByteIndex];
      var c: nat, len: nat;
      if byte < 0x80 {
        c, len := byte, 1;
      } else if 0xC0 <= byte < 0xE0 {
        c, len := byte - 0xC0, 2;
      } else if 0xE0 <= byte < 0xF0 {
        c, len := byte - 0xE0, 3;
      } else if 0xF0 <= byte < 0xF8 {
        c, len := byte - 0xF0, 4;
      } else {
        c, len := 0xFFFD, 1;
      }
      assert (c, len) == Lead(byte);
      var j := 1;
      while j < len && nextByteIndex + j < |src|
        invariant 1 <= j <= len
        invariant Continue(src, nextByteIndex, 1, len, Lead(byte).0) == Continue(src, nextByteIndex, j, len, c)
        decreases len - j
      {
        c := c * 64 + src[nextByteIndex + j] % 64;
        j := j + 1;
      }
      cp, seqLen := c, len;
      nextByteIndex := nextByteIndex + len;
      return true;
    }

    /** classify(): NotSet before the first symbol. */
    function ClassifyCurrent(): GlyphClass
      reads this
    {
      if seqLen == 0 then NotSet else classify(cp)
    }

    function StartIndex(): nat
      reads this
      requires Valid()
    {
      nextByteIndex - seqLen
    }

    function EndIndex(): nat
      reads this
    {
      nextByteIndex
    }

    /** rewindTo(range): decode the symbol at range.begin and compare its class. */
    method RewindTo(range: SpanRange) returns (ok: bool)
      modifies this
      ensures Valid()
      ensures ok <==> range.begin < |src| && classify(DecodeAt(src, range.begin).0) == range.cls
      ensures range.begin < |src| ==> (cp, seqLen) == DecodeAt(src, range.begin)
    {
      nextByteIndex := range.begin;
      seqLen := 0;
      cp := 0;
      ok := Next();
      if ok {
        ok := ClassifyCurrent() == range.cls;
      }
    }
  }

  // ---------------------------------------------------------------------
  // The symbols of a string

  /** The (start, code point) of every symbol the cursor visits from pos. */
  function SymbolsFrom(s: seq<Byte>, pos: nat): (r: seq<(nat, nat)>)
    ensures forall k :: 0 <= k < |r| ==> pos <= r[k].0 < |s|
    ensures r != [] ==> r[0].0 == pos
    ensures pos < |s| <==> r != []
    decreases |s| - pos
  {
    if pos >= |s| then []
    else
      var (cp, len) := DecodeAt(s, pos);
      [(pos, cp)] + SymbolsFrom(s, pos + len)
  }

  // ---------------------------------------------------------------------
  // UTF-8 round trip

  /** The UTF-8 encoding of a code point (section 3 of RFC 3629). */
  function Utf8Encode(c: nat): (r: seq<Byte>)
    requires c <= 0x10FFFF
    ensures 1 <= |r| <= 4
  {
    if c < 0x80 then [c]
    else if c < 0x800 then [0xC0 + c / 64, 0x80 + c % 64]
    else if c < 0x10000 then [0xE0 + c / 4096, 0x80 + (c / 64) % 64, 0x80 + c % 64]
    else [0xF0 + c / 262144, 0x80 + (c / 4096) % 64, 0x80 + (c / 64) % 64, 0x80 + c % 64]
  }

  lemma DecodeTwoBytes(c: nat, s: seq<Byte>)
    requires 0x80 <= c < 0x800
    requires |s| >= 2 && s[0] == 0xC0 + c / 64 && s[1] == 0x80 + c % 64
    ensures DecodeAt(s, 0) == (c, 2)
  {
    calc {
      DecodeAt(s, 0).0;
      Continue(s, 0, 1, 2, c / 64);
      Continue(s, 0, 2, 2, (c / 64) * 64 + c % 64);
    }
  }

  lemma DecodeThreeBytes(c: nat, s: seq<Byte>)
    requires 0x800 <= c < 0x10000
    requires |s| >= 3 && s[0] == 0xE0 + c / 4096 && s[1] == 0x80 + (c / 64) % 64 && s[2] == 0x80 + c % 64
    ensures DecodeAt(s, 0) == (c, 3)
  {
    var a := c / 64;
    SixBits(c);
    SixBits(a);
    DivChain(c);
    ContinuationBits(s[1], a % 64);
    ContinuationBits(s[2], c % 64);
    calc {
      DecodeAt(s, 0).0;
      Continue(s, 0, 1, 3, a / 64);
      Continue(s, 0, 2, 3, (a / 64) * 64 + a % 64);
      Continue(s, 0, 3, 3, (c / 64) * 64 + c % 64);
    }
  }

  lemma DecodeFourBytes(c: nat, s: seq<Byte>)
    requires 0x10000 <= c <= 0x10FFFF
    requires |s| >= 4 && s[0] == 0xF0 + c / 262144 && s[1] == 0x80 + (c / 4096) % 64
    requires s[2] == 0x80 + (c / 64) % 64 && s[3] == 0x80 + c % 64
    ensures DecodeAt(s, 0) == (c, 4)
  {
    var a, b := c / 64, c / 4096;
    SixBits(c);
    SixBits(a);
    SixBits(b);
    DivChain(c);
    ContinuationBits(s[1], b % 64);
    ContinuationBits(s[2], a % 64);
    ContinuationBits(s[3], c % 64);
    calc {
      DecodeAt(s, 0).0;
      Continue(s, 0, 1, 4, b / 64);
      Continue(s, 0, 2, 4, (b / 64) * 64 + b % 64);
      Continue(s, 0, 3, 4, b * 64 + a % 64);
      Continue(s, 0, 4, 4, a * 64 + c % 64);
    }
  }

  /** A continuation byte carries its six payload bits in its low bits. */
  lemma ContinuationBits(byte: int, x: nat)
    requires x < 64 && byte == 0x80 + x
    ensures byte % 64 == x
  {
  }

  lemma DivChain(c: nat)
    ensures c / 64 / 64 == c / 4096
    ensures c / 4096 / 64 == c / 262144
  {
  }

  /** Splitting off the low six bits and putting them back is the identity. */
  lemma SixBits(n: nat)
    ensures (n / 64) * 64 + n % 64 == n
  {
  }

  /** For a well-formed encoding, the cursor yields exactly the encoded code
      point and moves past exactly its bytes, whatever follows. */
  lemma DecodeEncoded(c: nat, rest: seq<Byte>)
    requires c <= 0x10FFFF
    ensures DecodeAt(Utf8Encode(c) + rest, 0) == (c, |Utf8Encode(c)|)
  {
    var s := Utf8Encode(c) + rest;
    if c < 0x80 {
    } else if c < 0x800 {
      DecodeTwoBytes(c, s);
    } else if c < 0x10000 {
      DecodeThreeBytes(c, s);
    } else {
      DecodeFourBytes(c, s);
    }
  }

  /** A stray continuation byte decodes to U+FFFD and is skipped alone. */
  lemma StrayContinuationByte(b: Byte, rest: seq<Byte>)
    requires 0x80 <= b < 0xC0
    ensures DecodeAt([b] + rest, 0) == (0xFFFD, 1)
  {
  }

  // ---------------------------------------------------------------------
  // makeSpans

  /** The loop state of makeSpans after the cursor stands at byte pos. With
      splitAstral (the copy in the SVG builder) every astral symbol gets a
      span of its own; classify gives the class table in use. */
  function SpansLoop(s: seq<Byte>, pos: nat, first: bool, cur: SpanRange, spans: seq<SpanRange>,
                     splitAstral: bool, classify: nat -> GlyphClass): seq<SpanRange>
    decreases |s| - pos
  {
    if pos >= |s| then
      if first then spans
      else
        var last := cur.(end := |s|);
        if IsValid(last) then spans + [last] else spans
    else
      var (c, len) := DecodeAt(s, pos);
      var next := Advance(first, cur, spans, pos, classify(c), splitAstral);
      SpansLoop(s, pos + len, false, next.0, next.1, splitAstral, classify)
  }

  /** The open span and the closed spans after the symbol at byte pos, of
      class cls: the first symbol opens the first span; a change of class
      (or, with splitAstral, an astral symbol) closes the open span at pos
      and opens a new one; otherwise the open span grows. */
  function Advance(first: bool, cur: SpanRange, spans: seq<SpanRange>, pos: nat, cls: GlyphClass,
                   splitAstral: bool): (SpanRange, seq<SpanRange>)
  {
    if first then (SpanRange(pos, 0, cls, FirstSpan), spans)
    else if (splitAstral && cls == Astral) || cls != cur.cls then
      (SpanRange(pos, 0, cls, InsideStringSpan), spans + [cur.(end := pos)])
    else (cur, spans)
  }

  /** One turn of the loop: the symbol at pos, of byte length len, moves
      the state on by Advance. */
  lemma SpansLoopStep(s: seq<Byte>, pos: nat, c: nat, len: nat, first: bool, cur: SpanRange,
                      spans: seq<SpanRange>, splitAstral: bool, classify: nat -> GlyphClass)
    requires pos < |s| && DecodeAt(s, pos) == (c, len)
    ensures var next := Advance(first, cur, spans, pos, classify(c), splitAstral);
            SpansLoop(s, pos, first, cur, spans, splitAstral, classify)
            == SpansLoop(s, pos + len, false, next.0, next.1, splitAstral, classify)
  {
  }

  /** The body of makeSpans's loop for the symbol at byte start, of class
      cls: the first symbol opens the first span; a change of class (or,
      with splitAstral, an astral symbol) closes the open span at start and
      opens the next one; otherwise the open span grows. */
  method NextSpan(first: bool, current: SpanRange, spans: seq<SpanRange>, start: nat, cls: GlyphClass,
                  splitAstral: bool)
    returns (current': SpanRange, spans': seq<SpanRange>)
    ensures (current', spans') == Advance(first, current, spans, start, cls, splitAstral)
  {
    current', spans' := current, spans;
    if first {
      current' := SpanRange(start, 0, cls, FirstSpan);
    } else if (splitAstral && cls == Astral) || cls != current.cls {
      spans' := spans + [current.(end := start)];
      current' := SpanRange(start, 0, cls, InsideStringSpan);
    }
  }

  const NoSpan := SpanRange(0, 0, NotSet, PositionNotSet)

  function SpansOf(s: seq<Byte>): seq<SpanRange> {
    SpansLoop(s, 0, true, NoSpan, [], false, Classify)
  }

  /** The loop of makeSpans, over a class table and with or without a span
      of its own for each astral symbol: walks the cursor over the text and
      closes a span whenever the class changes. */
  method ScanSpans(text: seq<Byte>, classify: nat -> GlyphClass, splitAstral: bool)
    returns (spans: seq<SpanRange>)
    ensures spans == SpansLoop(text, 0, true, NoSpan, [], splitAstral, classify)
  {
    spans := [];
    var first := true;
    var current := NoSpan;
    var iter := new UnicodeSymbolsIterator(text, classify);
    while true
      invariant iter.Valid() && iter.src == text && iter.classify == classify
      invariant SpansLoop(text, 0, true, NoSpan, [], splitAstral, classify)
                == SpansLoop(text, iter.nextByteIndex, first, current, spans, splitAstral, classify)
      decreases if iter.nextByteIndex <= |text| then |text| - iter.nextByteIndex + 1 else 0
    {
      ghost var pos := iter.nextByteIndex;
      var ok := iter.Next();
      if !ok {
        break;
      }
      var cls := iter.ClassifyCurrent();
      var start := iter.StartIndex();
      assert start == pos && cls == classify(iter.cp);
      SpansLoopStep(text, pos, iter.cp, iter.seqLen, first, current, spans, splitAstral, classify);
      current, spans := NextSpan(first, current, spans, start, cls, splitAstral);
      first := false;
    }
    if !first {
      var span := current.(end := |text|);
      if IsValid(span) {
        spans := spans + [span];
      }
    }
  }

  /** makeSpans: the loop over the class table of this header, where an
      astral symbol joins its neighbours of the same class. */
  method MakeSpans(text: seq<Byte>) returns (spans: seq<SpanRange>)
    ensures spans == SpansOf(text)
  {
    spans := ScanSpans(text, Classify, false);
  }

  // ---------------------------------------------------------------------
  // What the spans promise

  /** The spans cover [0, n) without gaps or overlaps, each non-empty, the
      first marked FirstSpan and the others InsideStringSpan. */
  predicate Partition(spans: seq<SpanRange>, n: nat) {
    && (spans != [] ==> spans[0].begin == 0 && spans[|spans| - 1].end == n)
    && (forall k :: 0 <= k < |spans| ==> IsValid(spans[k]))
    && (forall k :: 0 <= k < |spans| - 1 ==> spans[k].end == spans[k + 1].begin)
    && (spans != [] ==> spans[0].position == FirstSpan)
    && (forall k :: 0 < k < |spans| ==> spans[k].position == InsideStringSpan)
  }

  /** What holds of the loop state between iterations. */
  predicate LoopInv(s: seq<Byte>, pos: nat, first: bool, cur: SpanRange, spans: seq<SpanRange>, classifyOk: bool) {
    && (first ==> pos == 0 && spans == [])
    && (!first ==> cur.begin < pos && cur.begin < |s|)
    && (!first ==> (spans == [] <==> cur.position == FirstSpan))
    && (!first && spans == [] ==> cur.begin == 0)
    && (!first && spans != [] ==> cur.position == InsideStringSpan && spans[|spans| - 1].end == cur.begin)
    && (spans != [] ==> spans[0].begin == 0 && spans[0].position == FirstSpan)
    && (forall k :: 0 <= k < |spans| ==> IsValid(spans[k]))
    && (forall k :: 0 <= k < |spans| - 1 ==> spans[k].end == spans[k + 1].begin)
    && (forall k :: 0 < k < |spans| ==> spans[k].position == InsideStringSpan)
  }

  lemma {:induction false} SpansLoopPartition(s: seq<Byte>, pos: nat, first: bool, cur: SpanRange,
                                              spans: seq<SpanRange>, splitAstral: bool,
                                              classify: nat -> GlyphClass)
    requires LoopInv(s, pos, first, cur, spans, true)
    ensures Partition(SpansLoop(s, pos, first, cur, spans, splitAstral, classify), |s|)
    ensures SpansLoop(s, pos, first, cur, spans, splitAstral, classify) == [] <==> first && pos >= |s|
    decreases |s| - pos
  {
    if pos < |s| {
      var (c, len) := DecodeAt(s, pos);
      var cls := classify(c);
      if first {
        SpansLoopPartition(s, pos + len, false, SpanRange(pos, 0, cls, FirstSpan), spans, splitAstral, classify);
      } else if (splitAstral && cls == Astral) || cls != cur.cls {
        var spans' := spans + [cur.(end := pos)];
        assert LoopInv(s, pos + len, false, SpanRange(pos, 0, cls, InsideStringSpan), spans', true);
        SpansLoopPartition(s, pos + len, false, SpanRange(pos, 0, cls, InsideStringSpan), spans', splitAstral, classify);
      } else {
        SpansLoopPartition(s, pos + len, false, cur, spans, splitAstral, classify);
      }
    }
  }

  /** makeSpans("") is empty; otherwise the spans partition the whole text. */
  lemma SpansPartitionText(s: seq<Byte>)
    ensures Partition(SpansOf(s), |s|)
    ensures SpansOf(s) == [] <==> s == []
  {
    SpansLoopPartition(s, 0, true, NoSpan, [], false, Classify);
  }

  /** Adjacent spans differ in class, except that with splitAstral an
      astral span may follow a span of any class. */
  predicate ClassesAlternate(spans: seq<SpanRange>, splitAstral: bool) {
    forall k :: 0 <= k < |spans| - 1 ==>
      spans[k].cls != spans[k + 1].cls || (splitAstral && spans[k + 1].cls == Astral)
  }

  lemma {:induction false} SpansLoopAlternate(s: seq<Byte>, pos: nat, first: bool, cur: SpanRange,
                                              spans: seq<SpanRange>, splitAstral: bool,
                                              classify: nat -> GlyphClass)
    requires ClassesAlternate(spans, splitAstral)
    requires first ==> spans == []
    requires !first && spans != [] ==>
               spans[|spans| - 1].cls != cur.cls || (splitAstral && cur.cls == Astral)
    ensures ClassesAlternate(SpansLoop(s, pos, first, cur, spans, splitAstral, classify), splitAstral)
    decreases |s| - pos
  {
    if pos < |s| {
      var (c, len) := DecodeAt(s, pos);
      var cls := classify(c);
      if first {
        SpansLoopAlternate(s, pos + len, false, SpanRange(pos, 0, cls, FirstSpan), spans, splitAstral, classify);
      } else if (splitAstral && cls == Astral) || cls != cur.cls {
        SpansLoopAlternate(s, pos + len, false, SpanRange(pos, 0, cls, InsideStringSpan),
                           spans + [cur.(end := pos)], splitAstral, classify);
      } else {
        SpansLoopAlternate(s, pos + len, false, cur, spans, splitAstral, classify);
      }
    }
  }

  /** In the shared splitter neighbouring spans always have different classes. */
  lemma SpansAlternate(s: seq<Byte>)
    ensures ClassesAlternate(SpansOf(s), false)
    ensures forall k :: 0 <= k < |SpansOf(s)| - 1 ==> SpansOf(s)[k].cls != SpansOf(s)[k + 1].cls
  {
    SpansLoopAlternate(s, 0, true, NoSpan, [], false, Classify);
  }

  /** Every span carries the class of the symbol it starts with, so
      rewindTo(span) succeeds on every span makeSpans returns. */
  predicate ClassesMatch(s: seq<Byte>, spans: seq<SpanRange>, classify: nat -> GlyphClass) {
    forall k :: 0 <= k < |spans| ==>
      spans[k].begin < |s| && spans[k].cls == classify(DecodeAt(s, spans[k].begin).0)
  }

  lemma {:induction false} SpansLoopClasses(s: seq<Byte>, pos: nat, first: bool, cur: SpanRange,
                                            spans: seq<SpanRange>, splitAstral: bool,
                                            classify: nat -> GlyphClass)
    requires ClassesMatch(s, spans, classify)
    requires !first ==> cur.begin < |s| && cur.cls == classify(DecodeAt(s, cur.begin).0)
    ensures ClassesMatch(s, SpansLoop(s, pos, first, cur, spans, splitAstral, classify), classify)
    decreases |s| - pos
  {
    if pos < |s| {
      var (c, len) := DecodeAt(s, pos);
      var cls := classify(c);
      if first {
        SpansLoopClasses(s, pos + len, false, SpanRange(pos, 0, cls, FirstSpan), spans, splitAstral, classify);
      } else if (splitAstral && cls == Astral) || cls != cur.cls {
        SpansLoopClasses(s, pos + len, false, SpanRange(pos, 0, cls, InsideStringSpan),
                         spans + [cur.(end := pos)], splitAstral, classify);
      } else {
        SpansLoopClasses(s, pos + len, false, cur, spans, splitAstral, classify);
      }
    }
  }

  lemma SpansClassesMatch(s: seq<Byte>)
    ensures ClassesMatch(s, SpansOf(s), Classify)
  {
    SpansLoopClasses(s, 0, true, NoSpan, [], false, Classify);
  }

  /** With splitAstral, an astral span holds exactly one symbol: it ends
      where that symbol's bytes end, or at the end of a truncated text. */
  predicate AstralSpansSingle(s: seq<Byte>, spans: seq<SpanRange>) {
    forall k :: 0 <= k < |spans| && spans[k].cls == Astral && spans[k].begin < |s| ==>
      spans[k].end == Min(spans[k].begin + DecodeAt(s, spans[k].begin).1, |s|)
  }

  lemma {:induction false} SpansLoopAstral(s: seq<Byte>, pos: nat, first: bool, cur: SpanRange,
                                           spans: seq<SpanRange>, classify: nat -> GlyphClass)
    requires AstralSpansSingle(s, spans)
    requires !first ==> cur.begin < |s| && cur.begin < pos
    requires !first && cur.cls == Astral ==> pos == cur.begin + DecodeAt(s, cur.begin).1
    ensures AstralSpansSingle(s, SpansLoop(s, pos, first, cur, spans, true, classify))
    decreases |s| - pos
  {
    if pos < |s| {
      var (c, len) := DecodeAt(s, pos);
      var cls := classify(c);
      if first {
        SpansLoopAstral(s, pos + len, false, SpanRange(pos, 0, cls, FirstSpan), spans, classify);
      } else if cls == Astral || cls != cur.cls {
        SpansLoopAstral(s, pos + len, false, SpanRange(pos, 0, cls, InsideStringSpan),
                        spans + [cur.(end := pos)], classify);
      } else {
        SpansLoopAstral(s, pos + len, false, cur, spans, classify);
      }
    }
  }

  /** Spans that follow each other without gap from b to n. */
  predicate Chain(spans: seq<SpanRange>, b: nat, n: nat) {
    && (spans == [] ==> b == n)
    && (spans != [] ==> spans[0].begin == b && spans[|spans| - 1].end == n)
    && (forall k :: 0 <= k < |spans| ==> IsValid(spans[k]))
    && (forall k :: 0 <= k < |spans| - 1 ==> spans[k].end == spans[k + 1].begin)
  }

  /** The pieces of s the spans cut out, in order. */
  function Slices<T>(s: seq<T>, spans: seq<SpanRange>): seq<T>
    decreases |spans|
  {
    if spans == [] then []
    else
      var piece := if spans[0].begin <= spans[0].end <= |s| then s[spans[0].begin..spans[0].end] else [];
      piece + Slices(s, spans[1..])
  }

  lemma {:induction false} ChainRebuilds<T>(s: seq<T>, spans: seq<SpanRange>, b: nat, n: nat)
    requires n <= |s|
    requires Chain(spans, b, n)
    ensures b <= n
    ensures forall k :: 0 <= k < |spans| ==> b <= spans[k].begin && spans[k].end <= n
    ensures Slices(s, spans) == s[b..n]
    decreases |spans|
  {
    if spans != [] {
      var e := spans[0].end;
      var rest := spans[1..];
      if rest == [] {
        assert e == n;
      } else {
        assert rest[0].begin == e && rest[|rest| - 1].end == n;
        assert Chain(rest, e, n);
        ChainRebuilds(s, rest, e, n);
        forall k | 0 <= k < |spans|
          ensures b <= spans[k].begin && spans[k].end <= n
        {
          if k > 0 {
            assert spans[k] == rest[k - 1];
          }
        }
        assert s[b..n] == s[b..e] + s[e..n];
      }
    }
  }

  /** Cutting the text at the spans and gluing the pieces back gives the text. */
  lemma SpansRebuildText<T>(s: seq<T>, spans: seq<SpanRange>)
    requires Partition(spans, |s|)
    requires spans == [] <==> s == []
    ensures Slices(s, spans) == s
  {
    if spans != [] {
      ChainRebuilds(s, spans, 0, |s|);
      assert s[0..|s|] == s;
    }
  }

  /** Unlike its doc comment, the shared splitter merges neighbouring
      symbols of a custom-rendered class: two emoji form one span. */
  lemma TwoEmojiShareASpan()
    ensures SpansOf(Utf8Encode(0x1F600) + Utf8Encode(0x1F601))
            == [SpanRange(0, 8, Astral, FirstSpan)]
  {
    var s := Utf8Encode(0x1F600) + Utf8Encode(0x1F601);
    DecodeEncoded(0x1F600, Utf8Encode(0x1F601));
    assert s[4..] == Utf8Encode(0x1F601) + [];
    DecodeEncoded(0x1F601, []);
    DecodeShift(s, 4);
    assert DecodeAt(s, 0) == (0x1F600, 4);
    assert DecodeAt(s, 4) == (0x1F601, 4);
    var cur := SpanRange(0, 0, Astral, FirstSpan);
    calc {
      SpansOf(s);
      SpansLoop(s, 4, false, cur, [], false, Classify);
      SpansLoop(s, 8, false, cur, [], false, Classify);
    }
  }

  /** Decoding depends only on the bytes from pos onward. */
  lemma DecodeShift(s: seq<Byte>, pos: nat)
    requires pos < |s|
    ensures DecodeAt(s, pos) == DecodeAt(s[pos..], 0)
  {
    var (cp0, len) := Lead(s[pos]);
    ContinueShift(s, pos, 1, len, cp0);
  }

  lemma {:induction false} ContinueShift(s: seq<Byte>, pos: nat, j: nat, len: nat, cp: nat)
    requires pos <= |s|
    ensures Continue(s, pos, j, len, cp) == Continue(s[pos..], 0, j, len, cp)
    decreases len - j
  {
    if j < len && pos + j < |s| {
      assert s[pos..][j] == s[pos + j];
      ContinueShift(s, pos, j + 1, len, cp * 64 + s[pos + j] % 64);
    }
  }
}
