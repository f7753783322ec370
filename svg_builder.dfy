/** SvgBuilder: turns a text or shape drawable into an svg drawable. The
    generated document is kept as a tree (size, translation, elements)
    rather than as XML text; the x/y layout of text inside a line depends on
    font metrics and floating point and is not modelled. */
module SvgBuilder {
  import opened Basics
  import opened JsonValue
  import opened Drawables
  import opened VectorPoints
  import opened UnicodeSplitter
  import opened StrUtils

  const TabSizeInSpaces: nat := 2
  const MarkerHalfSize: int := 4
  const TextOffsetX: int := 1
  const TextOffsetY: int := 0

  // ---------------------------------------------------------------------
  // escape_for_svg

  function EscapeChar(c: char): string {
    if c == '&' then "&amp;"
    else if c == '<' then "&lt;"
    else if c == '>' then "&gt;"
    else if c == '"' then "&quot;"
    else if c == '\'' then "&apos;"
    else [c]
  }

  function Escape(s: string): string
    decreases |s|
  {
    if s == [] then "" else EscapeChar(s[0]) + Escape(s[1..])
  }

  method EscapeForSvg(input: string) returns (out: string)
    ensures out == Escape(input)
  {
    out := "";
    var i := 0;
    assert input[i..] == input;
    while i < |input|
      invariant 0 <= i <= |input|
      invariant out + Escape(input[i..]) == Escape(input)
    {
      // the switch on the character is EscapeChar
      var piece := EscapeChar(input[i]);
      EscapeCons(input, i);
      out := out + piece;
      i := i + 1;
    }
  }

  lemma EscapeCons(s: string, i: nat)
    requires i < |s|
    ensures Escape(s[i..]) == EscapeChar(s[i]) + Escape(s[i + 1..])
  {
    assert s[i..][1..] == s[i + 1..];
  }

  /** The XML reading of the five entities escape_for_svg writes. */
  function Unescape(s: string): string
    decreases |s|
  {
    if s == [] then ""
    else match EntityAt(s)
      case Some((c, n)) => [c] + Unescape(s[n..])
      case None => [s[0]] + Unescape(s[1..])
  }

  /** The entity at the head of s: the character it stands for and its length. */
  function EntityAt(s: string): Option<(char, nat)> {
    if |s| >= 5 && s[..5] == "&amp;" then Some(('&', 5))
    else if |s| >= 4 && s[..4] == "&lt;" then Some(('<', 4))
    else if |s| >= 4 && s[..4] == "&gt;" then Some(('>', 4))
    else if |s| >= 6 && s[..6] == "&quot;" then Some(('"', 6))
    else if |s| >= 6 && s[..6] == "&apos;" then Some(('\'', 6))
    else None
  }

  lemma EntityOfEscaped(c: char, rest: string)
    requires c == '&' || IsMarkup(c)
    ensures EntityAt(EscapeChar(c) + rest) == Some((c, |EscapeChar(c)|))
  {
    var e := EscapeChar(c);
    var t := e + rest;
    assert t[..|e|] == e;
    if c == '<' || c == '>' {
      assert t[1] == e[1];
      if |t| >= 5 {
        assert t[..5][1] == e[1];
      }
    } else if c == '"' {
      assert t[1] == 'q';
      assert t[..5][1] == 'q' && t[..4][1] == 'q';
    } else if c == '\'' {
      assert t[1] == 'a' && t[2] == 'p';
      assert t[..5][2] == 'p' && t[..4][1] == 'a' && t[..6][1] == 'a';
    }
  }

  lemma EntityOfPlain(c: char, rest: string)
    requires c != '&'
    ensures EntityAt([c] + rest) == None
  {
    var t := [c] + rest;
    assert t[0] == c;
    if |t| >= 4 {
      assert t[..4][0] == c;
    }
    if |t| >= 5 {
      assert t[..5][0] == c;
    }
    if |t| >= 6 {
      assert t[..6][0] == c;
    }
  }

  lemma UnescapeEscapeChar(c: char, rest: string)
    ensures Unescape(EscapeChar(c) + rest) == [c] + Unescape(rest)
  {
    var e := EscapeChar(c);
    var t := e + rest;
    assert t[|e|..] == rest;
    if c == '&' || IsMarkup(c) {
      EntityOfEscaped(c, rest);
    } else {
      EntityOfPlain(c, rest);
      assert t == [c] + rest;
    }
  }

  /** Reading the escaped text as XML gives back the original bytes. */
  lemma {:induction false} EscapeRoundTrip(s: string)
    ensures Unescape(Escape(s)) == s
    decreases |s|
  {
    if s != [] {
      UnescapeEscapeChar(s[0], Escape(s[1..]));
      EscapeRoundTrip(s[1..]);
    }
  }

  predicate IsMarkup(c: char) {
    c == '<' || c == '>' || c == '"' || c == '\''
  }

  /** The output holds no raw < > " ' characters. */
  lemma {:induction false} EscapeHasNoMarkup(s: string)
    ensures forall k :: 0 <= k < |Escape(s)| ==> !IsMarkup(Escape(s)[k])
    decreases |s|
  {
    if s != [] {
      EscapeHasNoMarkup(s[1..]);
      var e := EscapeChar(s[0]);
      assert forall k :: 0 <= k < |e| ==> !IsMarkup(e[k]);
    }
  }

  /** Text without any of the five special characters is copied unchanged. */
  lemma {:induction false} EscapeIdentity(s: string)
    requires forall k :: 0 <= k < |s| ==> !IsMarkup(s[k]) && s[k] != '&'
    ensures Escape(s) == s
    decreases |s|
  {
    if s != [] {
      EscapeIdentity(s[1..]);
      assert s == [s[0]] + s[1..];
    }
  }

  // ---------------------------------------------------------------------
  // The local class table and splitter

  /** The builder's own classify: the Dingbats block counts as astral. */
  function ClassifySvg(symbol: nat): (c: GlyphClass)
    ensures c == Latin1 <==> symbol <= 0xFF
    ensures c == Astral <==> symbol > 0xFFFF || 0x2700 <= symbol <= 0x27BF
    ensures c == BMP <==> 0xFF < symbol <= 0xFFFF && !(0x2700 <= symbol <= 0x27BF)
    ensures c != Dingbat && c != NotSet
  {
    if symbol <= 0xFF then Latin1
    else if 0x2700 <= symbol <= 0x27BF then Astral
    else if symbol <= 0xFFFF then BMP
    else Astral
  }

  /** The two tables agree except that the shared Dingbat class is astral here. */
  lemma ClassTablesAgree(symbol: nat)
    ensures ClassifySvg(symbol) == if Classify(symbol) == Dingbat then Astral else Classify(symbol)
    ensures ClassifySvg(symbol) == Astral <==> NeedsCustomRender(Classify(symbol))
  {
  }

  /** The bytes of a string (one char per byte). */
  function Bytes(s: string): (r: seq<Byte>)
    ensures |r| == |s|
  {
    seq(|s|, i requires 0 <= i < |s| => (s[i] as int) % 256)
  }

  function SvgSpans(s: string): seq<SpanRange> {
    SpansLoop(Bytes(s), 0, true, NoSpan, [], true, ClassifySvg)
  }

  /** The local makeSpans: like the shared one, except that every astral
      symbol opens a span of its own. The string's chars are its bytes. */
  method MakeSvgSpans(text: string) returns (spans: seq<SpanRange>)
    ensures spans == SvgSpans(text)
  {
    spans := ScanSpans(Bytes(text), ClassifySvg, true);
  }

  /** The local spans still partition the string; neighbours differ in class
      unless the later one is astral; each astral span holds exactly one
      symbol; every span has the class of its first symbol. */
  lemma SvgSpansProperties(s: string)
    ensures Partition(SvgSpans(s), |s|)
    ensures SvgSpans(s) == [] <==> s == []
    ensures ClassesAlternate(SvgSpans(s), true)
    ensures ClassesMatch(Bytes(s), SvgSpans(s), ClassifySvg)
    ensures AstralSpansSingle(Bytes(s), SvgSpans(s))
    ensures Slices(s, SvgSpans(s)) == s
  {
    var b := Bytes(s);
    SpansLoopPartition(b, 0, true, NoSpan, [], true, ClassifySvg);
    SpansLoopAlternate(b, 0, true, NoSpan, [], true, ClassifySvg);
    SpansLoopClasses(b, 0, true, NoSpan, [], true, ClassifySvg);
    SpansLoopAstral(b, 0, true, NoSpan, [], ClassifySvg);
    SpansRebuildText(s, SvgSpans(s));
  }

  // ---------------------------------------------------------------------
  // TextToSvgConverter

  /** A no-break space, drawn in place of an empty text. */
  const Nbsp: string := [0xC2 as char, 0xA0 as char]

  function TextToDraw(text: string): string {
    ExpandTabs(if text == "" then Nbsp else text, TabSizeInSpaces)
  }

  /** The piece one span of a line becomes: an astral span is an image of
      the symbol rewindTo finds at its start (none if rewinding fails), any
      other span is escaped text, with the text font family for Latin-1. */
  function PieceOf(line: string, span: SpanRange): seq<TextPiece> {
    if span.cls == Astral then
      var b := Bytes(line);
      if span.begin < |b| && ClassifySvg(DecodeAt(b, span.begin).0) == span.cls
      then [EmojiImage(DecodeAt(b, span.begin).0)]
      else []
    else
      var sub := if span.begin <= span.end <= |line| then line[span.begin..span.end] else "";
      [TextSpan(Escape(sub), span.cls == Latin1)]
  }

  function Pieces(line: string, spans: seq<SpanRange>): seq<TextPiece>
    decreases |spans|
  {
    if spans == [] then [] else PieceOf(line, spans[0]) + Pieces(line, spans[1..])
  }

  function LinePieces(line: string): seq<TextPiece> {
    Pieces(line, SvgSpans(line))
  }

  function LinesPieces(lines: seq<string>): (r: seq<seq<TextPiece>>)
    ensures |r| == |lines|
    ensures forall k :: 0 <= k < |lines| ==> r[k] == LinePieces(lines[k])
  {
    seq(|lines|, k requires 0 <= k < |lines| => LinePieces(lines[k]))
  }

  /** The text block makeSvgTextMultiline draws for a text at (x, y). */
  function TextBlockOf(x: int, y: int, color: string, fontSize: Option<int>, text: string): SvgElement {
    TextBlock(x, y, color, fontSize, LinesPieces(Split(TextToDraw(text), '\n')))
  }

  /** processSingleLine: one piece per span, in order. */
  method ProcessSingleLine(line: string) returns (pieces: seq<TextPiece>)
    ensures pieces == LinePieces(line)
  {
    var spans := MakeSvgSpans(line);
    pieces := [];
    var k := 0;
    while k < |spans|
      invariant 0 <= k <= |spans|
      invariant pieces + Pieces(line, spans[k..]) == LinePieces(line)
    {
      PiecesCons(line, spans, k);
      var piece := SpanPiece(line, spans[k]);
      AppendAssoc(pieces, piece, Pieces(line, spans[k + 1..]));
      pieces := pieces + piece;
      k := k + 1;
    }
  }

  /** The body of the processSingleLine loop for one span. */
  method SpanPiece(line: string, span: SpanRange) returns (piece: seq<TextPiece>)
    ensures piece == PieceOf(line, span)
  {
    if span.cls == Astral {
      var iter := new UnicodeSymbolsIterator(Bytes(line), ClassifySvg);
      var ok := iter.RewindTo(span);
      piece := if ok then [EmojiImage(iter.cp)] else [];
    } else {
      var sub := if span.begin <= span.end <= |line| then line[span.begin..span.end] else "";
      var escaped := EscapeForSvg(sub);
      piece := [TextSpan(escaped, span.cls == Latin1)];
    }
  }

  lemma AppendAssoc<T>(a: seq<T>, b: seq<T>, c: seq<T>)
    ensures a + (b + c) == (a + b) + c
  {
  }

  lemma PiecesCons(line: string, spans: seq<SpanRange>, k: nat)
    requires k < |spans|
    ensures Pieces(line, spans[k..]) == PieceOf(line, spans[k]) + Pieces(line, spans[k + 1..])
  {
    assert spans[k..][1..] == spans[k + 1..];
  }

  /** generateSvg: getline over the expanded text, one line at a time. */
  method TextToSvg(x: int, y: int, color: string, fontSize: Option<int>, text: string) returns (block: SvgElement)
    ensures block == TextBlockOf(x, y, color, fontSize, text)
  {
    var source := if text == "" then Nbsp else text;
    var expanded := ReplaceTabsWithSpaces(source, TabSizeInSpaces);
    var lines := SplitTokens(expanded, '\n');
    var out := ProcessLines(lines);
    block := TextBlock(x, y, color, fontSize, out);
  }

  /** The getline loop of generateSvg: each line's pieces, in order. */
  method ProcessLines(lines: seq<string>) returns (out: seq<seq<TextPiece>>)
    ensures out == LinesPieces(lines)
  {
    out := [];
    var i := 0;
    while i < |lines|
      invariant 0 <= i <= |lines|
      invariant out == LinesPieces(lines[..i])
    {
      var pieces := ProcessSingleLine(lines[i]);
      assert lines[..i + 1] == lines[..i] + [lines[i]];
      out := out + [pieces];
      i := i + 1;
    }
    assert lines[..i] == lines;
  }

  lemma {:induction false} PiecesFollowSpans(line: string, spans: seq<SpanRange>)
    requires ClassesMatch(Bytes(line), spans, ClassifySvg)
    ensures |Pieces(line, spans)| == |spans|
    ensures forall k :: 0 <= k < |spans| ==> Pieces(line, spans)[k] == PieceOf(line, spans[k])[0]
    decreases |spans|
  {
    if spans != [] {
      PiecesFollowSpans(line, spans[1..]);
      assert |PieceOf(line, spans[0])| == 1;
      forall k | 0 < k < |spans|
        ensures Pieces(line, spans)[k] == PieceOf(line, spans[k])[0]
      {
        assert spans[1..][k - 1] == spans[k];
      }
    }
  }

  /** Every span of a line yields exactly one piece: an astral span the
      image of the symbol it starts with, any other span its bytes,
      escaped; the spans themselves cover the line (SvgSpansProperties). */
  lemma LinePiecesCoverLine(line: string)
    ensures |LinePieces(line)| == |SvgSpans(line)|
    ensures forall k :: 0 <= k < |SvgSpans(line)| ==> SvgSpans(line)[k].begin < SvgSpans(line)[k].end <= |line|
    ensures forall k :: 0 <= k < |SvgSpans(line)| && SvgSpans(line)[k].cls == Astral && SvgSpans(line)[k].begin < |line| ==>
              LinePieces(line)[k] == EmojiImage(DecodeAt(Bytes(line), SvgSpans(line)[k].begin).0)
    ensures forall k :: 0 <= k < |SvgSpans(line)| && SvgSpans(line)[k].cls != Astral
                          && SvgSpans(line)[k].begin <= SvgSpans(line)[k].end <= |line| ==>
              && LinePieces(line)[k].TextSpan?
              && LinePieces(line)[k].latin1Font == (SvgSpans(line)[k].cls == Latin1)
              && Unescape(LinePieces(line)[k].escaped) == line[SvgSpans(line)[k].begin..SvgSpans(line)[k].end]
  {
    var spans := SvgSpans(line);
    SvgSpansProperties(line);
    PiecesFollowSpans(line, spans);
    ChainRebuilds(line, spans, 0, |line|);
    forall k | 0 <= k < |spans| && spans[k].cls != Astral && spans[k].begin <= spans[k].end <= |line|
      ensures Unescape(LinePieces(line)[k].escaped) == line[spans[k].begin..spans[k].end]
    {
      EscapeRoundTrip(line[spans[k].begin..spans[k].end]);
    }
  }

  // ---------------------------------------------------------------------
  // makeSvgShape

  /** drawMarker: a circle, a cross of two lines, and a text block to the right. */
  function MarkerElements(m: Marker, fontSize: int): seq<SvgElement> {
    var h := MarkerHalfSize;
    (if MarkerIsCircle(m) then [Circle(m.x, m.y, h, m.color)] else [])
    + (if MarkerIsCross(m)
       then [Line(m.x - h, m.y - h, m.x + h, m.y + h, m.color), Line(m.x - h, m.y + h, m.x + h, m.y - h, m.color)]
       else [])
    + (if MarkerHasText(m)
       then [TextBlockOf(m.x + h + TextOffsetX, m.y - TextOffsetY, m.color, Some(fontSize), m.text)]
       else [])
  }

  /** What one drawer callback writes: a line in the drawable's colour, or a marker. */
  function CallElements(call: VectorCall, color: string): seq<SvgElement> {
    match call
    case LineCall(x1, y1, x2, y2) => [Line(x1, y1, x2, y2, color)]
    case MarkerCall(m, fontSize) => MarkerElements(m, fontSize)
  }

  function CallsElements(calls: seq<VectorCall>, color: string): seq<SvgElement>
    decreases |calls|
  {
    if calls == [] then [] else CallElements(calls[0], color) + CallsElements(calls[1..], color)
  }

  /** The elements makeSvgShape writes: the drawer output of the vector walk
      in call order, then a rectangle for a non-vector "rect" shape. */
  function ShapeBody(task: DrawItem): seq<SvgElement> {
    var isVector := IsVectorShape(task);
    var calls := if isVector then Run(ParsedPrefix(Items(task.shape.vect)), task.shape.vectorFontSize).1 else [];
    CallsElements(calls, task.color)
    + (if !isVector && task.shape.shape == "rect"
       then [Rect(task.x, task.y, task.shape.w, task.shape.h, task.color)]
       else [])
  }

  method MakeSvgShape(task: DrawItem) returns (body: seq<SvgElement>)
    ensures body == ShapeBody(task)
  {
    var hadVec, calls := ForEachVectorPointsPair(task);
    body := WriteCalls(calls, task.color);
    if !hadVec && task.shape.shape == "rect" {
      body := body + [Rect(task.x, task.y, task.shape.w, task.shape.h, task.color)];
    }
  }

  /** The drawer callbacks of makeSvgShape, each writing its elements. */
  method WriteCalls(calls: seq<VectorCall>, color: string) returns (body: seq<SvgElement>)
    ensures body == CallsElements(calls, color)
  {
    body := [];
    var i := 0;
    while i < |calls|
      invariant 0 <= i <= |calls|
      invariant body + CallsElements(calls[i..], color) == CallsElements(calls, color)
    {
      CallsCons(calls, i, color);
      AppendAssoc(body, CallElements(calls[i], color), CallsElements(calls[i + 1..], color));
      body := body + CallElements(calls[i], color);
      i := i + 1;
    }
  }

  lemma CallsCons(calls: seq<VectorCall>, i: nat, color: string)
    requires i < |calls|
    ensures CallsElements(calls[i..], color) == CallElements(calls[i], color) + CallsElements(calls[i + 1..], color)
  {
    assert calls[i..][1..] == calls[i + 1..];
  }

  lemma {:induction false} CallsMakeNoRect(calls: seq<VectorCall>, color: string)
    ensures forall k :: 0 <= k < |CallsElements(calls, color)| ==> !CallsElements(calls, color)[k].Rect?
    decreases |calls|
  {
    if calls != [] {
      CallsMakeNoRect(calls[1..], color);
    }
  }

  /** A rectangle is drawn exactly for a non-vector shape named "rect", and
      then it is the last element. */
  lemma RectOnlyForRectShapes(task: DrawItem)
    ensures (exists k :: 0 <= k < |ShapeBody(task)| && ShapeBody(task)[k].Rect?)
            <==> !IsVectorShape(task) && task.shape.shape == "rect"
    ensures !IsVectorShape(task) && task.shape.shape == "rect" ==>
              ShapeBody(task) == [Rect(task.x, task.y, task.shape.w, task.shape.h, task.color)]
  {
    var calls := if IsVectorShape(task) then Run(ParsedPrefix(Items(task.shape.vect)), task.shape.vectorFontSize).1 else [];
    CallsMakeNoRect(calls, task.color);
    if !IsVectorShape(task) && task.shape.shape == "rect" {
      assert ShapeBody(task)[0].Rect?;
    }
  }

  lemma {:induction false} CallsOfLines(calls: seq<VectorCall>, color: string)
    requires forall k :: 0 <= k < |calls| ==> calls[k].LineCall?
    ensures CallsElements(calls, color)
            == seq(|calls|, k requires 0 <= k < |calls| => Line(calls[k].x1, calls[k].y1, calls[k].x2, calls[k].y2, color))
    decreases |calls|
  {
    if calls != [] {
      CallsOfLines(calls[1..], color);
    }
  }

  lemma {:induction false} OnlyLines(calls: seq<VectorCall>)
    requires Markers(calls) == []
    ensures Lines(calls) == calls
    decreases |calls|
  {
    if calls != [] {
      assert calls[0].LineCall?;
      OnlyLines(calls[1..]);
    }
  }

  lemma {:induction false} NoSetMarkers(ps: seq<Marker>, fontSize: int)
    requires forall k :: 0 <= k < |ps| ==> !MarkerIsSet(ps[k])
    ensures SetMarkers(ps, fontSize) == []
    decreases |ps|
  {
    if ps != [] {
      NoSetMarkers(ps[..|ps| - 1], fontSize);
    }
  }

  /** A vector shape's body is the drawing of its walk's calls alone. */
  lemma VectorShapeBody(task: DrawItem)
    requires IsVectorShape(task)
    ensures ShapeBody(task) == CallsElements(Run(ParsedPrefix(Items(task.shape.vect)), task.shape.vectorFontSize).1, task.color)
  {
    var calls := Run(ParsedPrefix(Items(task.shape.vect)), task.shape.vectorFontSize).1;
    assert ShapeBody(task) == CallsElements(calls, task.color) + [];
  }

  /** The lines joining consecutive points, in the given colour. */
  function Polyline(pts: seq<(int, int)>, color: string): (r: seq<SvgElement>)
    ensures |r| == if pts == [] then 0 else |pts| - 1
  {
    seq(if pts == [] then 0 else |pts| - 1,
        k requires 0 <= k < |pts| - 1 => Line(pts[k].0, pts[k].1, pts[k + 1].0, pts[k + 1].1, color))
  }

  lemma PairsArePolyline(pts: seq<(int, int)>, color: string)
    ensures CallsElements(Pairs(pts), color) == Polyline(pts, color)
  {
    CallsOfLines(Pairs(pts), color);
  }

  /** A vector of points without markers (and without the INT_MAX sentinel)
      becomes the polyline through its readable points in the drawable's colour. */
  lemma PlainVectorIsPolyline(task: DrawItem)
    requires IsVectorShape(task)
    requires NoSentinelX(ParsedPrefix(Items(task.shape.vect)))
    requires forall k :: 0 <= k < |ParsedPrefix(Items(task.shape.vect))| ==> !MarkerIsSet(ParsedPrefix(Items(task.shape.vect))[k])
    ensures ShapeBody(task) == Polyline(Coords(ParsedPrefix(Items(task.shape.vect))), task.color)
  {
    var ps := ParsedPrefix(Items(task.shape.vect));
    var fs := task.shape.vectorFontSize;
    var calls := Run(ps, fs).1;
    VectorCallCounts(ps, fs);
    NoSetMarkers(ps, fs);
    OnlyLines(calls);
    VectorShapeBody(task);
    PairsArePolyline(Coords(ps), task.color);
  }

  // ---------------------------------------------------------------------
  // BuildSvgTask

  /** The x and y of every vector item, or None when one of them does not
      read as an integer (val["x"].get<int>() throws). */
  function PointsOf(items: seq<Json>): Option<seq<(int, int)>>
    decreases |items|
  {
    if items == [] then Some([])
    else match PointsOf(items[..|items| - 1])
      case None => None
      case Some(pts) =>
        var x, y := IntMember(items[|items| - 1], "x"), IntMember(items[|items| - 1], "y");
        if x.Some? && y.Some? then Some(pts + [(x.value, y.value)]) else None
  }

  predicate Readable(j: Json) {
    IntMember(j, "x").Some? && IntMember(j, "y").Some?
  }

  /** The points read exactly when every item reads, one point per item. */
  lemma {:induction false} PointsOfReadsAll(items: seq<Json>)
    ensures PointsOf(items).Some? <==> forall k :: 0 <= k < |items| ==> Readable(items[k])
    ensures PointsOf(items).Some? ==>
              && |PointsOf(items).value| == |items|
              && forall k :: 0 <= k < |items| ==>
                   PointsOf(items).value[k] == (IntMember(items[k], "x").value, IntMember(items[k], "y").value)
    decreases |items|
  {
    if items != [] {
      var init := items[..|items| - 1];
      PointsOfReadsAll(init);
      assert forall k :: 0 <= k < |init| ==> init[k] == items[k];
      if PointsOf(items).Some? {
        var pts := PointsOf(init).value;
        assert PointsOf(items).value == pts + [(IntMember(items[|items| - 1], "x").value, IntMember(items[|items| - 1], "y").value)];
      }
    }
  }

  /** Read points are ints, one per item. */
  lemma PointsFit(items: seq<Json>)
    requires PointsOf(items).Some?
    ensures |PointsOf(items).value| == |items| && AllInt32(PointsOf(items).value)
  {
    PointsOfReadsAll(items);
  }

  /** The (minX, minY, maxX, maxY) the loop computes from the INT_MAX/INT_MIN start. */
  function Box(pts: seq<(int, int)>): (int, int, int, int)
    decreases |pts|
  {
    if pts == [] then (IntMax, IntMax, IntMin, IntMin)
    else
      var b := Box(pts[..|pts| - 1]);
      var p := pts[|pts| - 1];
      (Min(b.0, p.0), Min(b.1, p.1), Max(b.2, p.0), Max(b.3, p.1))
  }

  predicate AllInt32(pts: seq<(int, int)>) {
    forall k :: 0 <= k < |pts| ==> IsInt32(pts[k].0) && IsInt32(pts[k].1)
  }

  /** For points that fit an int, the box is the tight bounding box. */
  lemma {:induction false} BoxIsTight(pts: seq<(int, int)>)
    requires AllInt32(pts)
    ensures forall k :: 0 <= k < |pts| ==>
              Box(pts).0 <= pts[k].0 <= Box(pts).2 && Box(pts).1 <= pts[k].1 <= Box(pts).3
    ensures pts != [] ==> exists k :: 0 <= k < |pts| && pts[k].0 == Box(pts).0
    ensures pts != [] ==> exists k :: 0 <= k < |pts| && pts[k].1 == Box(pts).1
    ensures pts != [] ==> exists k :: 0 <= k < |pts| && pts[k].0 == Box(pts).2
    ensures pts != [] ==> exists k :: 0 <= k < |pts| && pts[k].1 == Box(pts).3
    decreases |pts|
  {
    if pts != [] {
      var init := pts[..|pts| - 1];
      var last := |pts| - 1;
      assert forall k :: 0 <= k < |init| ==> init[k] == pts[k];
      BoxIsTight(init);
      var b := Box(init);
      if init != [] {
        var i0 :| 0 <= i0 < |init| && init[i0].0 == b.0;
        var i1 :| 0 <= i1 < |init| && init[i1].1 == b.1;
        var i2 :| 0 <= i2 < |init| && init[i2].0 == b.2;
        var i3 :| 0 <= i3 < |init| && init[i3].1 == b.3;
        assert pts[if b.0 <= pts[last].0 then i0 else last].0 == Box(pts).0;
        assert pts[if b.1 <= pts[last].1 then i1 else last].1 == Box(pts).1;
        assert pts[if b.2 >= pts[last].0 then i2 else last].0 == Box(pts).2;
        assert pts[if b.3 >= pts[last].1 then i3 else last].1 == Box(pts).3;
      } else {
        assert pts[last].0 == Box(pts).0 && pts[last].1 == Box(pts).1;
        assert pts[last].0 == Box(pts).2 && pts[last].1 == Box(pts).3;
      }
    }
  }

  /** int division by 4, truncating toward zero. */
  function QuarterOf(n: int): int {
    if n >= 0 then n / 4 else -((-n) / 4)
  }

  /** The corner that becomes (0, 0) of the document and its explicit size,
      for a vector whose points all read: the bounding box, or for a single
      point a box of the window's quarter width and a marker's height,
      shifted up-left by kMarkerHalfSize + 1. Signed overflow, undefined in
      C++, is modelled as the two's-complement wrap (so an empty vector
      keeps the INT_MAX corner and a wrapped size of 1 by 1). */
  function VectorFrame(pts: seq<(int, int)>, windowWidth: int, fontSize: int): ((int, int), (int, int))
  {
    var (minX, minY, maxX, maxY) := Box(pts);
    if |pts| == 1 then
      ((ToInt32(minX - (MarkerHalfSize + 1)), ToInt32(minY - (MarkerHalfSize + 1))),
       (QuarterOf(windowWidth), ToInt32(2 * MarkerHalfSize + 1 + fontSize + TextOffsetY)))
    else
      ((minX, minY), (ToInt32(maxX - minX), ToInt32(maxY - minY)))
  }

  /** BuildSvgTask's result, or the exception a vector point raises. */
  datatype BuildOutcome = Built(item: DrawItem) | PointThrew

  /** The svg drawable: the drawable with its payload replaced by the document. */
  function Converted(task: DrawItem, origin: (int, int), size: Option<(int, int)>, body: seq<SvgElement>): DrawItem {
    task.(x := origin.0, y := origin.1, text := EmptyText, shape := EmptyShape, mode := Svg,
          svg := Some(SvgDoc(size, (ToInt32(-origin.0), ToInt32(-origin.1)), body)))
  }

  function TextElement(task: DrawItem): SvgElement {
    TextBlockOf(task.x, task.y, task.color, task.text.fontSize, task.text.text)
  }

  /** The corner and explicit size of the document, or None when a vector
      point does not read: the vector frame for a vector shape, otherwise
      the drawable's own x and y and no size. */
  function Frame(task: DrawItem, windowWidth: int, fontSize: int): Option<((int, int), Option<(int, int)>)> {
    if IsVectorShape(task) then
      match PointsOf(Items(task.shape.vect))
      case None => None
      case Some(pts) =>
        var (origin, size) := VectorFrame(pts, windowWidth, fontSize);
        Some((origin, Some(size)))
    else Some(((task.x, task.y), None))
  }

  /** The elements inside the document's group. */
  function Body(task: DrawItem): seq<SvgElement> {
    if task.mode == Text then [TextElement(task)] else ShapeBody(task)
  }

  function BuildSpec(task: DrawItem, windowWidth: int, fontSize: int): BuildOutcome {
    if task.mode == Idk || task.mode == Svg then Built(task)
    else match Frame(task, windowWidth, fontSize)
      case None => PointThrew
      case Some((origin, size)) => Built(Converted(task, origin, size, Body(task)))
  }

  /** The first half of BuildSvgTask for a vector shape: the bounding-box
      loop over the items and the single-point adjustment. ok is false when
      an item's x or y does not read (get<int>() throws). */
  method VectorCorner(task: DrawItem, windowWidth: int, fontSize: int)
    returns (ok: bool, corner: (int, int), size: (int, int))
    requires IsVectorShape(task)
    ensures ok <==> PointsOf(Items(task.shape.vect)).Some?
    ensures ok ==> (corner, size) == VectorFrame(PointsOf(Items(task.shape.vect)).value, windowWidth, fontSize)
  {
    var items := Items(task.shape.vect);
    var minX, minY, maxX, maxY;
    ok, minX, minY, maxX, maxY := BoundingBox(items);
    if !ok {
      return false, (0, 0), (0, 0);
    }
    PointsFit(items);
    var width, height := ToInt32(maxX - minX), ToInt32(maxY - minY);
    if Size(task.shape.vect) == 1 {
      height := ToInt32(2 * MarkerHalfSize + 1 + fontSize + TextOffsetY);
      width := QuarterOf(windowWidth);
      minX := ToInt32(minX - (MarkerHalfSize + 1));
      minY := ToInt32(minY - (MarkerHalfSize + 1));
    }
    return true, (minX, minY), (width, height);
  }

  /** The bounding-box loop of BuildSvgTask, from INT_MAX / INT_MIN; ok is
      false when an item's x or y does not read (get<int>() throws). */
  method BoundingBox(items: seq<Json>) returns (ok: bool, minX: int, minY: int, maxX: int, maxY: int)
    ensures ok <==> PointsOf(items).Some?
    ensures ok ==> (minX, minY, maxX, maxY) == Box(PointsOf(items).value)
  {
    minX, minY := IntMax, IntMax;
    maxX, maxY := IntMin, IntMin;
    ghost var pts: seq<(int, int)> := [];
    var i := 0;
    while i < |items|
      invariant 0 <= i <= |items|
      invariant PointsOf(items[..i]) == Some(pts)
      invariant (minX, minY, maxX, maxY) == Box(pts)
    {
      assert items[..i + 1][..i] == items[..i];
      var x := IntMember(items[i], "x");
      var y := IntMember(items[i], "y");
      if x.None? || y.None? {
        PointsOfReadsAll(items);
        return false, minX, minY, maxX, maxY;
      }
      minX, minY := Min(minX, x.value), Min(minY, y.value);
      maxX, maxY := Max(maxX, x.value), Max(maxY, y.value);
      pts := pts + [(x.value, y.value)];
      i := i + 1;
    }
    assert items[..i] == items;
    ok := true;
  }

  /** SvgBuilder::BuildSvgTask. windowWidth comes from the session's logic
      context; fontSize is what the shape payload's getFinalFontSize()
      answers (that accessor is not part of this model). */
  method BuildSvgTask(task: DrawItem, windowWidth: int, fontSize: int) returns (r: BuildOutcome)
    ensures r == BuildSpec(task, windowWidth, fontSize)
  {
    var corner: (int, int);
    var size: Option<(int, int)> := None;
    if IsVectorShape(task) {
      var ok, c, sz := VectorCorner(task, windowWidth, fontSize);
      if !ok {
        return PointThrew;
      }
      corner, size := c, Some(sz);
    } else {
      corner := (task.x, task.y);
    }
    assert Frame(task, windowWidth, fontSize) == Some((corner, size));
    var body: seq<SvgElement>;
    match task.mode {
      case Text =>
        var block := TextToSvg(task.x, task.y, task.color, task.text.fontSize, task.text.text);
        body := [block];
      case Shape =>
        body := MakeSvgShape(task);
      case Idk =>
        return Built(task);
      case Svg =>
        return Built(task);
    }
    assert body == Body(task);
    r := Built(Converted(task, corner, size, body));
  }

  // ---------------------------------------------------------------------
  // What BuildSvgTask promises

  /** Commands (idk) and ready svg drawables come back unchanged; text and
      shape drawables become svg drawables that keep their id, timestamp,
      colour, command and anti-flicker flag, with empty text and shape. */
  lemma ConversionKeepsIdentity(task: DrawItem, windowWidth: int, fontSize: int)
    ensures task.mode == Idk || task.mode == Svg ==> BuildSpec(task, windowWidth, fontSize) == Built(task)
    ensures (task.mode == Text || task.mode == Shape) && BuildSpec(task, windowWidth, fontSize).Built? ==>
              var d := BuildSpec(task, windowWidth, fontSize).item;
              && d.mode == Svg && d.svg.Some? && d.text == EmptyText && d.shape == EmptyShape
              && d.id == task.id && d.stamp == task.stamp && d.color == task.color
              && d.command == task.command && d.alreadyRendered == task.alreadyRendered
  {
  }

  /** Conversion empties the text and the equality never looks at the SVG
      document, so two text drawables in the same colour at the same place
      compare equal once converted, whatever their texts say. */
  lemma ConvertedTextsCompareEqual(a: DrawItem, b: DrawItem, windowWidth: int, fontSize: int, fontSize': int)
    requires a.mode == Text && b.mode == Text
    requires a.color == b.color && a.x == b.x && a.y == b.y
    ensures BuildSpec(a, windowWidth, fontSize).Built? && BuildSpec(b, windowWidth, fontSize').Built?
    ensures IsEqualStoredData(BuildSpec(a, windowWidth, fontSize).item, BuildSpec(b, windowWidth, fontSize').item)
  {
    NonVectorKeepsPosition(a, windowWidth, fontSize);
    NonVectorKeepsPosition(b, windowWidth, fontSize');
    ConversionKeepsIdentity(a, windowWidth, fontSize);
    ConversionKeepsIdentity(b, windowWidth, fontSize');
  }

  /** Anything but a vector shape converts without failing and keeps its
      x and y; the document is shifted by (-x, -y) and has no explicit size. */
  lemma NonVectorKeepsPosition(task: DrawItem, windowWidth: int, fontSize: int)
    requires task.mode == Text || task.mode == Shape
    requires !IsVectorShape(task)
    ensures BuildSpec(task, windowWidth, fontSize).Built?
    ensures var d := BuildSpec(task, windowWidth, fontSize).item;
            d.x == task.x && d.y == task.y
            && d.svg.value.size == None && d.svg.value.translate == (ToInt32(-task.x), ToInt32(-task.y))
  {
  }

  /** A vector shape fails exactly when some item lacks an integer x or y. */
  lemma VectorFailures(task: DrawItem, windowWidth: int, fontSize: int)
    requires IsVectorShape(task)
    ensures BuildSpec(task, windowWidth, fontSize) == PointThrew
            <==> exists k :: 0 <= k < |Items(task.shape.vect)| && !Readable(Items(task.shape.vect)[k])
  {
    PointsOfReadsAll(Items(task.shape.vect));
  }

  /** A vector shape whose points read becomes the svg drawable placed by
      the vector frame of those points. */
  lemma BuiltVector(task: DrawItem, windowWidth: int, fontSize: int)
    requires IsVectorShape(task) && PointsOf(Items(task.shape.vect)).Some?
    ensures var frame := VectorFrame(PointsOf(Items(task.shape.vect)).value, windowWidth, fontSize);
            BuildSpec(task, windowWidth, fontSize) == Built(Converted(task, frame.0, Some(frame.1), ShapeBody(task)))
  {
    var frame := VectorFrame(PointsOf(Items(task.shape.vect)).value, windowWidth, fontSize);
    assert task.mode == Shape;
    assert Frame(task, windowWidth, fontSize) == Some((frame.0, Some(frame.1)));
    assert Body(task) == ShapeBody(task);
  }

  /** For two or more points that fit an int, the frame's corner is the
      least x and the least y of the points, and its size reaches the
      greatest x and y: the points at indices left, top, right and bottom
      attain them. */
  /** The frame whose corner is the x of the point at left and the y of the
      point at top, reaching the x of the point at right and the y of the
      point at bottom (the extents cast to int). */
  function Spanned(pts: seq<(int, int)>, left: nat, top: nat, right: nat, bottom: nat): ((int, int), (int, int))
    requires left < |pts| && top < |pts| && right < |pts| && bottom < |pts|
  {
    ((pts[left].0, pts[top].1), (ToInt32(pts[right].0 - pts[left].0), ToInt32(pts[bottom].1 - pts[top].1)))
  }

  lemma ManyPointsFrame(pts: seq<(int, int)>, windowWidth: int, fontSize: int)
    returns (left: nat, top: nat, right: nat, bottom: nat)
    requires AllInt32(pts) && |pts| >= 2
    ensures left < |pts| && top < |pts| && right < |pts| && bottom < |pts|
    ensures forall k :: 0 <= k < |pts| ==>
              pts[left].0 <= pts[k].0 <= pts[right].0 && pts[top].1 <= pts[k].1 <= pts[bottom].1
    ensures VectorFrame(pts, windowWidth, fontSize) == Spanned(pts, left, top, right, bottom)
  {
    BoxIsTight(pts);
    var b := Box(pts);
    left :| 0 <= left < |pts| && pts[left].0 == b.0;
    top :| 0 <= top < |pts| && pts[top].1 == b.1;
    right :| 0 <= right < |pts| && pts[right].0 == b.2;
    bottom :| 0 <= bottom < |pts| && pts[bottom].1 == b.3;
  }

  /** For two or more points the drawable moves to the bounding box's
      corner (the least x and the least y of the points), the document is
      as wide and high as the greatest x and y lie beyond that corner, and
      its group is shifted back by the corner. */
  lemma VectorBoundingBox(task: DrawItem, windowWidth: int, fontSize: int)
    returns (left: nat, top: nat, right: nat, bottom: nat)
    requires IsVectorShape(task) && PointsOf(Items(task.shape.vect)).Some?
    requires |Items(task.shape.vect)| >= 2
    ensures BuildSpec(task, windowWidth, fontSize).Built?
    ensures var pts := PointsOf(Items(task.shape.vect)).value;
            && left < |pts| && top < |pts| && right < |pts| && bottom < |pts|
            && forall k :: 0 <= k < |pts| ==>
                 pts[left].0 <= pts[k].0 <= pts[right].0 && pts[top].1 <= pts[k].1 <= pts[bottom].1
    ensures var pts := PointsOf(Items(task.shape.vect)).value;
            && left < |pts| && top < |pts| && right < |pts| && bottom < |pts|
            && var f := Spanned(pts, left, top, right, bottom);
               BuildSpec(task, windowWidth, fontSize) == Built(Converted(task, f.0, Some(f.1), ShapeBody(task)))
  {
    var pts := PointsOf(Items(task.shape.vect)).value;
    PointsFit(Items(task.shape.vect));
    BuiltVector(task, windowWidth, fontSize);
    left, top, right, bottom := ManyPointsFrame(pts, windowWidth, fontSize);
  }

  /** A single point is drawn as a marker: the drawable moves to 5 above
      and left of it, the document is a quarter of the window wide and as
      tall as the marker and its label, and its group is shifted back by
      the corner. */
  lemma SinglePointFrame(task: DrawItem, windowWidth: int, fontSize: int)
    requires IsVectorShape(task) && PointsOf(Items(task.shape.vect)).Some?
    requires |Items(task.shape.vect)| == 1
    ensures BuildSpec(task, windowWidth, fontSize).Built?
    ensures var p := PointsOf(Items(task.shape.vect)).value[0];
            BuildSpec(task, windowWidth, fontSize)
            == Built(Converted(task, (ToInt32(p.0 - 5), ToInt32(p.1 - 5)),
                               Some((QuarterOf(windowWidth), ToInt32(9 + fontSize))), ShapeBody(task)))
  {
    var items := Items(task.shape.vect);
    PointsFit(items);
    var pts := PointsOf(items).value;
    SinglePointBox(pts, windowWidth, fontSize);
    BuiltVector(task, windowWidth, fontSize);
  }

  /** One point: the frame is the marker's square around it, as wide as a
      quarter of the window and as tall as the marker and its label. */
  lemma SinglePointBox(pts: seq<(int, int)>, windowWidth: int, fontSize: int)
    requires |pts| == 1 && AllInt32(pts)
    ensures VectorFrame(pts, windowWidth, fontSize)
            == ((ToInt32(pts[0].0 - 5), ToInt32(pts[0].1 - 5)), (QuarterOf(windowWidth), ToInt32(9 + fontSize)))
  {
    assert pts == [pts[0]];
    assert Box(pts) == (pts[0].0, pts[0].1, pts[0].0, pts[0].1) by {
      assert pts[..0] == [];
    }
  }

  /** An empty vector reads no point: with signed overflow as a wrap, the
      drawable keeps the INT_MAX corner and a 1 by 1 document. */
  lemma EmptyVectorFrame(task: DrawItem, windowWidth: int, fontSize: int)
    requires IsVectorShape(task) && Items(task.shape.vect) == []
    ensures BuildSpec(task, windowWidth, fontSize).Built?
    ensures var d := BuildSpec(task, windowWidth, fontSize).item;
            d.x == IntMax && d.y == IntMax && d.svg.Some? && d.svg.value.size == Some((1, 1))
  {
  }
}
