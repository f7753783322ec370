/** The drawable descriptor (drawitem_t) and its timestamp: expiry, content
    equality, the command test and the anti-flicker flag. */
module Drawables {
  import opened Basics
  import opened JsonValue

  /** Times are milliseconds of the steady clock; a ttl is whole seconds. */
  const MsPerSecond: int := 1000

  /** The steady clock as a batch reads it: clock(k) is the time at which
      the drawitem_t of the batch's k-th element is constructed. */
  type Clock = nat -> int

  /** steady_clock never goes back: a later reading is never smaller. */
  ghost predicate Steady(clock: Clock) {
    forall i: nat, j: nat :: i <= j ==> clock(i) <= clock(j)
  }

  /** timestamp_t: creation time and time-to-live; a negative ttl never expires. */
  datatype Timestamp = Timestamp(createdAt: int, ttl: int)

  predicate IsValid(ts: Timestamp, now: int) {
    ts.ttl < 0 || now <= ts.createdAt + ts.ttl * MsPerSecond
  }

  predicate IsExpired(ts: Timestamp, now: int) {
    !IsValid(ts, now)
  }

  /** An item expires exactly when it has a non-negative ttl and now lies
      strictly after created_at + ttl; the boundary instant is still valid. */
  lemma ExpiryRule(ts: Timestamp, now: int)
    ensures IsExpired(ts, now) <==> ts.ttl >= 0 && now > ts.createdAt + ts.ttl * MsPerSecond
    ensures ts.ttl < 0 ==> !IsExpired(ts, now)
    ensures ts.ttl >= 0 ==> !IsExpired(ts, ts.createdAt + ts.ttl * MsPerSecond)
  {
  }

  /** Once expired, an item stays expired as the clock advances. */
  lemma ExpiryIsPermanent(ts: Timestamp, now: int, later: int)
    requires IsExpired(ts, now) && now <= later
    ensures IsExpired(ts, later)
  {
  }

  /** The svg mode carries a ready SVG document instead of text or shape data. */
  datatype DrawMode = Idk | Text | Shape | Svg

  datatype TextPayload = TextPayload(text: string, size: string, fontSize: Option<int>)

  datatype ShapePayload = ShapePayload(shape: string, fill: string, w: int, h: int,
                                       vectorFontSize: int, vect: Json)

  const EmptyText := TextPayload("", "", None)
  const EmptyShape := ShapePayload("", "", 0, 0, 0, JNull)

  /** One piece of a text line: an escaped run drawn as SVG text (with the
      Latin-1 font family or without one), or one emoji drawn as an image. */
  datatype TextPiece =
    | TextSpan(escaped: string, latin1Font: bool)
    | EmojiImage(symbol: nat)

  /** One element of a generated SVG document. */
  datatype SvgElement =
    | Line(x1: int, y1: int, x2: int, y2: int, stroke: string)
    | Circle(cx: int, cy: int, r: int, stroke: string)
    | Rect(x: int, y: int, w: int, h: int, stroke: string)
    /** A text block anchored at (x, y): its lines, each a sequence of pieces. */
    | TextBlock(x: int, y: int, color: string, fontSize: Option<int>, lines: seq<seq<TextPiece>>)

  /** A generated SVG document: an explicit width and height (vector shapes
      only), the translation of its group, and the drawn elements in order. */
  datatype SvgDoc = SvgDoc(size: Option<(int, int)>, translate: (int, int), body: seq<SvgElement>)

  /** The svg payload of a drawitem_t: None while it holds the empty string. */
  type SvgPayload = Option<SvgDoc>

  datatype DrawItem = DrawItem(
    stamp: Timestamp,
    id: string,
    command: string,
    mode: DrawMode,
    x: int,
    y: int,
    color: string,
    text: TextPayload,
    shape: ShapePayload,
    svg: SvgPayload,
    alreadyRendered: bool)

  /** A default-constructed drawitem_t, created at time now. */
  function NewItem(now: int): (d: DrawItem)
    ensures d.mode == Idk && d.id == "" && d.command == "" && d.stamp.ttl < 0
    ensures !d.alreadyRendered
  {
    DrawItem(Timestamp(now, -1), "", "", Idk, 0, 0, "", EmptyText, EmptyShape, None, false)
  }

  /** drawtext_t equality: text, size and font size. */
  predicate TextEqual(a: TextPayload, b: TextPayload) {
    a.text == b.text && a.size == b.size && a.fontSize == b.fontSize
  }

  /** drawshape_t equality: every field except vector_font_size. */
  predicate ShapeEqual(a: ShapePayload, b: ShapePayload) {
    a.shape == b.shape && a.fill == b.fill && a.w == b.w && a.h == b.h && a.vect == b.vect
  }

  /** Content equality used by the anti-flicker and dedup steps. */
  predicate IsEqualStoredData(a: DrawItem, b: DrawItem) {
    a.mode == b.mode && a.color == b.color && TextEqual(a.text, b.text)
    && ShapeEqual(a.shape, b.shape) && a.x == b.x && a.y == b.y && a.color == b.color
  }

  predicate IsCommand(d: DrawItem) {
    d.command != ""
  }

  function SetAlreadyRendered(d: DrawItem): (r: DrawItem)
    ensures r.alreadyRendered
    ensures r.(alreadyRendered := d.alreadyRendered) == d
  {
    d.(alreadyRendered := true)
  }

  function IsItemExpired(d: DrawItem, now: int): bool {
    IsExpired(d.stamp, now)
  }

  /** Content equality ignores the id, the timestamp, the command, the
      anti-flicker flag, vector_font_size and the svg payload. */
  lemma EqualityIgnoresBookkeeping(d: DrawItem, id: string, stamp: Timestamp, command: string,
                                   rendered: bool, vectorFontSize: int, svg: SvgPayload)
    ensures IsEqualStoredData(d, d.(id := id, stamp := stamp, command := command,
                                    alreadyRendered := rendered,
                                    shape := d.shape.(vectorFontSize := vectorFontSize),
                                    svg := svg))
  {
  }

  /** Content-equal items agree on every compared field. */
  lemma EqualityComparesContent(a: DrawItem, b: DrawItem)
    requires IsEqualStoredData(a, b)
    ensures a.mode == b.mode && a.color == b.color && a.x == b.x && a.y == b.y
    ensures a.text == b.text
    ensures a.shape.(vectorFontSize := 0) == b.shape.(vectorFontSize := 0)
  {
  }

  /** Content equality is an equivalence relation. */
  lemma EqualityIsEquivalence(a: DrawItem, b: DrawItem, c: DrawItem)
    ensures IsEqualStoredData(a, a)
    ensures IsEqualStoredData(a, b) ==> IsEqualStoredData(b, a)
    ensures IsEqualStoredData(a, b) && IsEqualStoredData(b, c) ==> IsEqualStoredData(a, c)
  {
  }

  /** A point reads exactly when x and y read as integers and each marker
      field present is a string; absent marker fields read as "". */
  lemma ParsePointReads(j: Json)
    ensures ParsePoint(j).Some? <==>
              && IntMember(j, "x").Some? && IntMember(j, "y").Some?
              && (forall k | k in {"color", "marker", "text"} :: Contains(j, k) ==> Member(j, k).value.JStr?)
    ensures ParsePoint(j).Some? ==>
              && ParsePoint(j).value.x == IntMember(j, "x").value
              && ParsePoint(j).value.y == IntMember(j, "y").value
              && (!Contains(j, "color") ==> ParsePoint(j).value.color == "")
              && (Contains(j, "color") ==> Member(j, "color").value == JStr(ParsePoint(j).value.color))
  {
  }

  /** A point of a vector shape, with its optional marker (TMarkerInVectorInShape). */
  datatype Marker = Marker(x: int, y: int, color: string, kind: string, text: string)

  predicate MarkerIsSet(m: Marker) { m.color != "" }
  predicate MarkerIsCross(m: Marker) { m.kind == "cross" }
  predicate MarkerIsCircle(m: Marker) { m.kind == "circle" }
  predicate MarkerHasText(m: Marker) { m.text != "" }

  /** `contains(key) ? val[key].get<std::string>() : ""`; None when the member is not a string. */
  function OptionalString(j: Json, key: string): Option<string>
  {
    if !Contains(j, key) then Some("")
    else match Member(j, key)
      case Some(JStr(s)) => Some(s)
      case _ => None
  }

  /** Reading one point of a vector: integer x and y, then the optional
      marker strings; None when any read throws. */
  function ParsePoint(j: Json): (r: Option<Marker>)
  {
    var x, y := IntMember(j, "x"), IntMember(j, "y");
    var color, kind, text := OptionalString(j, "color"), OptionalString(j, "marker"), OptionalString(j, "text");
    if x.Some? && y.Some? && color.Some? && kind.Some? && text.Some? then
      Some(Marker(x.value, y.value, color.value, kind.value, text.value))
    else None
  }
}
