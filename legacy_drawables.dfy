/** The older decoder at the repository root: the same field-dispatch walk
    as the current one, with fewer keys (no command, no msgid or shapeid
    aliases, no font sizes), and a vector walk with a single line callback
    and no markers. */
module LegacyDrawables {
  import opened Basics
  import opened JsonValue
  import opened OrderedMap
  import Drawables
  import Decoder
  import VectorPoints

  datatype Mode = Idk | Text | Shape

  datatype TextPart = TextPart(text: string, size: string)

  datatype ShapePart = ShapePart(shape: string, fill: string, w: int, h: int, vect: Json)

  /** drawitem_t of the older header; its timestamp_t is the current one's. */
  datatype LegacyItem = LegacyItem(
    stamp: Drawables.Timestamp,
    id: string,
    mode: Mode,
    x: int,
    y: int,
    color: string,
    text: TextPart,
    shape: ShapePart)

  /** A default-constructed item, created at time now, with no ttl. */
  function NewItem(now: int): (d: LegacyItem)
    ensures d.mode == Idk && d.id == "" && d.stamp == Drawables.Timestamp(now, -1)
  {
    LegacyItem(Drawables.Timestamp(now, -1), "", Idk, 0, 0, "", TextPart("", ""), ShapePart("", "", 0, 0, JNull))
  }

  predicate IsExpired(d: LegacyItem, now: int) {
    Drawables.IsExpired(d.stamp, now)
  }

  /** The older timestamp_t expires by the same rule: a ttl of at least
      zero and a clock strictly past created_at + ttl. */
  lemma LegacyExpiry(d: LegacyItem, now: int)
    ensures IsExpired(d, now) <==> d.stamp.ttl >= 0 && now > d.stamp.createdAt + d.stamp.ttl * Drawables.MsPerSecond
    ensures d.stamp.ttl < 0 ==> !IsExpired(d, now)
  {
    Drawables.ExpiryRule(d.stamp, now);
  }

  // ---------------------------------------------------------------------
  // The processors table

  const TextKeys: set<string> := {"text", "size"}
  const ShapeKeys: set<string> := {"shape", "fill", "w", "h", "vector"}
  const NeutralKeys: set<string> := {"x", "y", "color", "ttl", "id"}
  /** Keys read with get<int>(). */
  const IntKeys: set<string> := {"x", "y", "w", "h", "ttl"}

  function KnownKeys(): set<string> { TextKeys + ShapeKeys + NeutralKeys }

  datatype KeyOutcome = Applied(item: LegacyItem) | NoProcessor | Threw

  /** Values a processor of `key` accepts without throwing ("vector" keeps any value). */
  predicate AcceptsValue(key: string, v: Json) {
    if key == "vector" then true
    else if key in IntKeys then GetInt(v).Ok?
    else GetString(v).Ok?
  }

  /** One entry of the processors table applied to the item under construction. */
  function ApplyKey(key: string, v: Json, d: LegacyItem): (r: KeyOutcome)
    ensures r.NoProcessor? <==> key !in KnownKeys()
    ensures r.Threw? <==> key in KnownKeys() && !AcceptsValue(key, v)
    ensures r.Applied? && key in TextKeys ==> r.item.mode == Text
    ensures r.Applied? && key in ShapeKeys ==> r.item.mode == Shape
    ensures r.Applied? && key in NeutralKeys ==> r.item.mode == d.mode
    ensures r.Applied? && key == "id" ==> r.item == d.(id := v.s)
    ensures r.Applied? && key == "ttl" ==> r.item == d.(stamp := d.stamp.(ttl := r.item.stamp.ttl))
    ensures r.Applied? ==> r.item.stamp.createdAt == d.stamp.createdAt
    ensures r.Applied? && key != "id" ==> r.item.id == d.id
  {
    if key !in KnownKeys() then NoProcessor
    else if !AcceptsValue(key, v) then Threw
    else if key == "x" then Applied(d.(x := GetInt(v).value))
    else if key == "y" then Applied(d.(y := GetInt(v).value))
    else if key == "color" then Applied(d.(color := v.s))
    else if key == "text" then Applied(d.(mode := Text, text := d.text.(text := v.s)))
    else if key == "size" then Applied(d.(mode := Text, text := d.text.(size := v.s)))
    else if key == "shape" then Applied(d.(mode := Shape, shape := d.shape.(shape := v.s)))
    else if key == "fill" then Applied(d.(mode := Shape, shape := d.shape.(fill := v.s)))
    else if key == "w" then Applied(d.(mode := Shape, shape := d.shape.(w := GetInt(v).value)))
    else if key == "h" then Applied(d.(mode := Shape, shape := d.shape.(h := GetInt(v).value)))
    else if key == "vector" then Applied(d.(mode := Shape, shape := d.shape.(vect := v)))
    else if key == "ttl" then Applied(d.(stamp := d.stamp.(ttl := GetInt(v).value)))
    else Applied(d.(id := v.s))
  }

  /** The keys the current decoder added are unknown to this one. */
  lemma NewerKeysUnknown(v: Json, d: LegacyItem)
    ensures forall k :: k in {"msgid", "shapeid", "command", "font_size", "vector_font_size"} ==> ApplyKey(k, v, d).NoProcessor?
  {
  }

  // ---------------------------------------------------------------------
  // parseSingleObject

  datatype FieldsOutcome = Finished(item: LegacyItem) | Conflicted(item: LegacyItem) | FieldsThrew

  predicate IsConflict(before: LegacyItem, after: LegacyItem) {
    before.mode != Idk && after.mode != before.mode
  }

  /** The member walk, as a function of the remaining members. */
  function DecodeFields(fs: seq<(string, Json)>, d: LegacyItem): (r: FieldsOutcome)
    ensures r.Conflicted? ==> r.item.mode == Idk
    ensures !r.FieldsThrew? ==> r.item.stamp.createdAt == d.stamp.createdAt
    decreases |fs|
  {
    if fs == [] then Finished(d)
    else match ApplyKey(fs[0].0, fs[0].1, d)
      case Threw => FieldsThrew
      case NoProcessor => DecodeFields(fs[1..], d)
      case Applied(d') =>
        if IsConflict(d, d') then Conflicted(d'.(mode := Idk)) else DecodeFields(fs[1..], d')
  }

  datatype ObjectOutcome = Kept(item: LegacyItem) | Dropped | ObjectThrew

  const AnonymousTtl: int := 60

  /** Keep an item whose mode was decided, naming it if it has no id. */
  function Finish(d: LegacyItem, counter: nat): (r: (ObjectOutcome, nat))
    ensures r.0.Kept? <==> d.mode != Idk
    ensures r.0.Kept? && d.id != "" ==> r.0.item == d && r.1 == counter
    ensures r.0.Kept? && d.id == "" ==>
              && r.0.item == d.(id := Decoder.AutoIdPrefix + NatToDecimal(counter),
                                stamp := d.stamp.(ttl := if d.stamp.ttl < 0 then AnonymousTtl else d.stamp.ttl))
              && r.1 == counter + 1
    ensures r.0.Dropped? ==> r.1 == counter
    ensures !r.0.ObjectThrew?
  {
    if d.mode == Idk then (Dropped, counter)
    else if d.id != "" then (Kept(d), counter)
    else
      var ttl := if d.stamp.ttl < 0 then AnonymousTtl else d.stamp.ttl;
      (Kept(d.(id := Decoder.AutoIdPrefix + NatToDecimal(counter), stamp := d.stamp.(ttl := ttl))), counter + 1)
  }

  function DecodeObject(obj: Json, now: int, counter: nat): (r: (ObjectOutcome, nat))
    ensures r.0.Kept? ==> r.0.item.id != "" && r.0.item.stamp.createdAt == now && r.0.item.mode != Idk
    ensures r.1 == counter || (r.0.Kept? && r.1 == counter + 1)
  {
    match DecodeFields(Fields(obj), NewItem(now))
    case FieldsThrew => (ObjectThrew, counter)
    case Finished(d) => Finish(d, counter)
    case Conflicted(d) => Finish(d, counter)
  }

  /** parseSingleObject: processes the members in key order, stops at the
      first text/shape conflict, then keeps the item iff its mode is set. */
  method ParseSingleObject(obj: Json, now: int, counter: nat) returns (r: ObjectOutcome, counter': nat)
    ensures (r, counter') == DecodeObject(obj, now, counter)
  {
    var fs := Fields(obj);
    var d := NewItem(now);
    var i := 0;
    while i < |fs|
      invariant 0 <= i <= |fs|
      invariant DecodeFields(fs, NewItem(now)) == DecodeFields(fs[i..], d)
    {
      assert fs[i..][0] == fs[i] && fs[i..][1..] == fs[i + 1..];
      var outcome := ApplyKey(fs[i].0, fs[i].1, d);
      if outcome.Threw? {
        return ObjectThrew, counter;
      }
      if outcome.Applied? {
        var prevMode := d.mode;
        d := outcome.item;
        if prevMode != Idk && d.mode != prevMode {
          d := d.(mode := Idk);
          r, counter' := Finish(d, counter).0, Finish(d, counter).1;
          return;
        }
      }
      i := i + 1;
    }
    r, counter' := Finish(d, counter).0, Finish(d, counter).1;
  }

  // ---------------------------------------------------------------------
  // parseJsonString

  datatype Batch = Parsed(items: Entries<LegacyItem>) | ParseFailed

  function DecodeAll(objs: seq<Json>, stamps: seq<int>, counter: nat, acc: Entries<LegacyItem>): (r: (Batch, nat))
    requires |stamps| == |objs| && Sorted(acc)
    ensures r.0.Parsed? ==> Sorted(r.0.items)
    decreases |objs|
  {
    if objs == [] then (Parsed(acc), counter)
    else
      var (o, c) := DecodeObject(objs[0], stamps[0], counter);
      match o
      case ObjectThrew => (ParseFailed, c)
      case Dropped => DecodeAll(objs[1..], stamps[1..], c, acc)
      case Kept(d) => DecodeAll(objs[1..], stamps[1..], c, Put(acc, d.id, d))
  }

  function DecodeSource(src: Decoder.Source, clock: Drawables.Clock, counter: nat): (r: (Batch, nat))
    ensures r.0.Parsed? ==> Sorted(r.0.items)
    ensures src.EmptyText? ==> r == (Parsed([]), counter)
    ensures src.Malformed? ==> r == (ParseFailed, counter)
  {
    match src
    case EmptyText => (Parsed([]), counter)
    case Malformed => (ParseFailed, counter)
    case Document(doc) => DecodeAll(Decoder.Elements(doc), Decoder.Readings(clock, |Decoder.Elements(doc)|), counter, [])
  }

  /** parseJsonString, with the static id counter passed in and returned and
      the steady clock read once per element. */
  method ParseJsonString(src: Decoder.Source, clock: Drawables.Clock, counter: nat) returns (r: Batch, counter': nat)
    ensures (r, counter') == DecodeSource(src, clock, counter)
  {
    if src.EmptyText? {
      return Parsed([]), counter;
    }
    if src.Malformed? {
      return ParseFailed, counter;
    }
    var objs := Decoder.Elements(src.doc);
    ghost var stamps := Decoder.Readings(clock, |objs|);
    var result: Entries<LegacyItem> := [];
    counter' := counter;
    var i := 0;
    while i < |objs|
      invariant 0 <= i <= |objs|
      invariant Sorted(result)
      invariant DecodeAll(objs, stamps, counter, []) == DecodeAll(objs[i..], stamps[i..], counter', result)
    {
      assert objs[i..][0] == objs[i] && objs[i..][1..] == objs[i + 1..];
      assert stamps[i..][0] == clock(i) && stamps[i..][1..] == stamps[i + 1..];
      var o;
      o, counter' := ParseSingleObject(objs[i], clock(i), counter');
      if o.ObjectThrew? {
        return ParseFailed, counter';
      }
      if o.Kept? {
        result := Put(result, o.item.id, o.item);
      }
      i := i + 1;
    }
    r := Parsed(result);
  }

  // ---------------------------------------------------------------------
  // Properties of the decoder

  /** A member whose key has no processor changes nothing: removing it
      leaves the walk's outcome as it was. */
  lemma {:induction false} UnknownKeySkipped(pre: seq<(string, Json)>, key: string, v: Json,
                                             post: seq<(string, Json)>, d: LegacyItem)
    requires key !in KnownKeys()
    ensures DecodeFields(pre + [(key, v)] + post, d) == DecodeFields(pre + post, d)
    decreases |pre|
  {
    var with := pre + [(key, v)] + post;
    if pre == [] {
      assert with[0] == (key, v) && with[1..] == post;
      assert pre + post == post;
    } else {
      assert with[0] == pre[0] && with[1..] == pre[1..] + [(key, v)] + post;
      assert (pre + post)[0] == pre[0] && (pre + post)[1..] == pre[1..] + post;
      match ApplyKey(pre[0].0, pre[0].1, d)
      case Threw =>
      case NoProcessor => UnknownKeySkipped(pre[1..], key, v, post, d);
      case Applied(d') =>
        if !IsConflict(d, d') { UnknownKeySkipped(pre[1..], key, v, post, d'); }
    }
  }

  /** A mode conflict ends the walk: the members after it are never read. */
  lemma {:induction false} ConflictIgnoresRest(pre: seq<(string, Json)>, post: seq<(string, Json)>, d: LegacyItem)
    requires DecodeFields(pre, d).Conflicted?
    ensures DecodeFields(pre + post, d) == DecodeFields(pre, d)
    decreases |pre|
  {
    assert pre != [];
    assert (pre + post)[0] == pre[0] && (pre + post)[1..] == pre[1..] + post;
    match ApplyKey(pre[0].0, pre[0].1, d)
    case Threw =>
    case NoProcessor => ConflictIgnoresRest(pre[1..], post, d);
    case Applied(d') =>
      if !IsConflict(d, d') { ConflictIgnoresRest(pre[1..], post, d'); }
  }

  /** A walk that reads every member ends in text mode if it met a text
      key, in shape mode if it met a shape key, and never leaves a mode
      once chosen. */
  lemma {:induction false} FinishedModeReflectsKeys(fs: seq<(string, Json)>, d: LegacyItem)
    requires DecodeFields(fs, d).Finished?
    ensures Decoder.HasKeyOf(fs, TextKeys) ==> DecodeFields(fs, d).item.mode == Text
    ensures Decoder.HasKeyOf(fs, ShapeKeys) ==> DecodeFields(fs, d).item.mode == Shape
    ensures !Decoder.HasKeyOf(fs, TextKeys) && !Decoder.HasKeyOf(fs, ShapeKeys) ==> DecodeFields(fs, d).item.mode == d.mode
    ensures d.mode != Idk ==> DecodeFields(fs, d).item.mode == d.mode
    decreases |fs|
  {
    if fs != [] {
      Decoder.HasKeyOfCons(fs, TextKeys);
      Decoder.HasKeyOfCons(fs, ShapeKeys);
      match ApplyKey(fs[0].0, fs[0].1, d)
      case NoProcessor => FinishedModeReflectsKeys(fs[1..], d);
      case Applied(d') => FinishedModeReflectsKeys(fs[1..], d');
    }
  }

  /** An object with both a text key and a shape key is never stored. */
  lemma MixedObjectNotKept(obj: Json, now: int, counter: nat)
    requires Decoder.HasKeyOf(Fields(obj), TextKeys) && Decoder.HasKeyOf(Fields(obj), ShapeKeys)
    ensures !DecodeObject(obj, now, counter).0.Kept?
  {
    if DecodeFields(Fields(obj), NewItem(now)).Finished? {
      FinishedModeReflectsKeys(Fields(obj), NewItem(now));
    }
  }

  /** Within a batch the element decoded last under an id is the one
      stored: if element i is kept as d whatever the counter, and no later
      element is kept under d.id, the batch maps d.id to d. */
  lemma {:induction false} LastWins(objs: seq<Json>, stamps: seq<int>, counter: nat, acc: Entries<LegacyItem>,
                                    i: nat, d: LegacyItem)
    requires |stamps| == |objs| && Sorted(acc)
    requires DecodeAll(objs, stamps, counter, acc).0.Parsed?
    requires i < |objs| && forall c: nat {:trigger DecodeObject(objs[i], stamps[i], c)} :: DecodeObject(objs[i], stamps[i], c).0 == Kept(d)
    requires forall j, c: nat {:trigger DecodeObject(objs[j], stamps[j], c)} :: i < j < |objs| ==>
               !(DecodeObject(objs[j], stamps[j], c).0.Kept? && DecodeObject(objs[j], stamps[j], c).0.item.id == d.id)
    ensures Get(DecodeAll(objs, stamps, counter, acc).0.items, d.id) == Some(d)
    decreases |objs|
  {
    var (o, c) := DecodeObject(objs[0], stamps[0], counter);
    var acc' := if o.Kept? then Put(acc, o.item.id, o.item) else acc;
    assert DecodeAll(objs, stamps, counter, acc) == DecodeAll(objs[1..], stamps[1..], c, acc');
    if i == 0 {
      assert o == Kept(d);
      KeptIdSurvives(objs[1..], stamps[1..], c, acc', d);
    } else {
      assert forall j, c: nat {:trigger DecodeObject(objs[1..][j], stamps[1..][j], c)} :: i - 1 < j < |objs[1..]| ==>
               !(DecodeObject(objs[1..][j], stamps[1..][j], c).0.Kept? && DecodeObject(objs[1..][j], stamps[1..][j], c).0.item.id == d.id) by {
        forall j, c: nat | i - 1 < j < |objs[1..]|
          ensures !(DecodeObject(objs[1..][j], stamps[1..][j], c).0.Kept? && DecodeObject(objs[1..][j], stamps[1..][j], c).0.item.id == d.id)
        {
          assert objs[1..][j] == objs[j + 1] && stamps[1..][j] == stamps[j + 1];
        }
      }
      assert objs[1..][i - 1] == objs[i] && stamps[1..][i - 1] == stamps[i];
      LastWins(objs[1..], stamps[1..], c, acc', i - 1, d);
    }
  }

  /** An entry already stored survives elements none of which is kept under its id. */
  lemma {:induction false} KeptIdSurvives(objs: seq<Json>, stamps: seq<int>, counter: nat, acc: Entries<LegacyItem>, d: LegacyItem)
    requires |stamps| == |objs| && Sorted(acc) && Get(acc, d.id) == Some(d)
    requires DecodeAll(objs, stamps, counter, acc).0.Parsed?
    requires forall j, c: nat {:trigger DecodeObject(objs[j], stamps[j], c)} :: 0 <= j < |objs| ==>
               !(DecodeObject(objs[j], stamps[j], c).0.Kept? && DecodeObject(objs[j], stamps[j], c).0.item.id == d.id)
    ensures Get(DecodeAll(objs, stamps, counter, acc).0.items, d.id) == Some(d)
    decreases |objs|
  {
    if objs != [] {
      var (o, c) := DecodeObject(objs[0], stamps[0], counter);
      var acc' := if o.Kept? then Put(acc, o.item.id, o.item) else acc;
      assert Get(acc', d.id) == Some(d);
      assert forall j, c: nat {:trigger DecodeObject(objs[1..][j], stamps[1..][j], c)} :: 0 <= j < |objs[1..]| ==>
               !(DecodeObject(objs[1..][j], stamps[1..][j], c).0.Kept? && DecodeObject(objs[1..][j], stamps[1..][j], c).0.item.id == d.id) by {
        forall j, c: nat | 0 <= j < |objs[1..]|
          ensures !(DecodeObject(objs[1..][j], stamps[1..][j], c).0.Kept? && DecodeObject(objs[1..][j], stamps[1..][j], c).0.item.id == d.id)
        {
          assert objs[1..][j] == objs[j + 1] && stamps[1..][j] == stamps[j + 1];
        }
      }
      KeptIdSurvives(objs[1..], stamps[1..], c, acc', d);
    }
  }

  /** Anonymous items receive distinct automatic ids from distinct counter values. */
  lemma AutoIdsDistinct(d1: LegacyItem, d2: LegacyItem, c1: nat, c2: nat)
    requires d1.id == "" && d2.id == "" && Finish(d1, c1).0.Kept? && Finish(d2, c2).0.Kept?
    requires c1 != c2
    ensures Finish(d1, c1).0.item.id != Finish(d2, c2).0.item.id
  {
    if Finish(d1, c1).0.item.id == Finish(d2, c2).0.item.id {
      var p := Decoder.AutoIdPrefix;
      assert (p + NatToDecimal(c1))[|p|..] == NatToDecimal(c1);
      assert (p + NatToDecimal(c2))[|p|..] == NatToDecimal(c2);
      NatToDecimalInjective(c1, c2);
    }
  }

  // ---------------------------------------------------------------------
  // ForEachVectorPointsPair with a single line callback

  /** `val["x"].get<int>()` and `val["y"].get<int>()`; None when either throws. */
  function ReadPoint(j: Json): Option<(int, int)> {
    match (IntMember(j, "x"), IntMember(j, "y"))
    case (Some(x), Some(y)) => Some((x, y))
    case _ => None
  }

  /** The points read before the first one that fails to read. */
  function PointPrefix(items: seq<Json>): (r: seq<(int, int)>)
    ensures |r| <= |items|
    decreases |items|
  {
    if items == [] then []
    else match ReadPoint(items[0])
      case None => []
      case Some(p) => [p] + PointPrefix(items[1..])
  }

  /** The loop reads point i exactly when i is inside the readable prefix. */
  lemma {:induction false} PointPrefixNext(items: seq<Json>, i: nat)
    requires i < |items| && i <= |PointPrefix(items)|
    ensures ReadPoint(items[i]).Some? ==> i < |PointPrefix(items)| && PointPrefix(items)[i] == ReadPoint(items[i]).value
    ensures ReadPoint(items[i]).None? ==> i == |PointPrefix(items)|
    decreases i
  {
    if ReadPoint(items[0]).Some? && i > 0 {
      PointPrefixNext(items[1..], i - 1);
    }
  }

  /** One iteration on a point that read: the sentinel update and the line. */
  function Step(c: VectorPoints.Cursor, p: (int, int)): (VectorPoints.Cursor, seq<VectorPoints.VectorCall>) {
    if c.x1 == VectorPoints.Uninit then (c.(x1 := p.0, y1 := p.1), [])
    else if c.x2 == VectorPoints.Uninit then (c.(x2 := p.0, y2 := p.1), [VectorPoints.LineCall(c.x1, c.y1, p.0, p.1)])
    else (VectorPoints.Cursor(c.x2, c.y2, p.0, p.1), [VectorPoints.LineCall(c.x2, c.y2, p.0, p.1)])
  }

  /** The cursor and the line calls after the loop has read the points ps. */
  function Walk(ps: seq<(int, int)>): (VectorPoints.Cursor, seq<VectorPoints.VectorCall>)
    decreases |ps|
  {
    if ps == [] then (VectorPoints.Start, [])
    else
      var (c, calls) := Walk(ps[..|ps| - 1]);
      var (c', more) := Step(c, ps[|ps| - 1]);
      (c', calls + more)
  }

  predicate IsVectorShape(d: LegacyItem) {
    d.mode == Shape && d.shape.shape == "vect"
  }

  /** ForEachVectorPointsPair: false and no calls unless the item is a
      "vect" shape; otherwise the line calls of the walk over the points
      read before the first unreadable one. */
  method ForEachVectorPointsPair(src: LegacyItem) returns (isVector: bool, calls: seq<VectorPoints.VectorCall>)
    ensures isVector == IsVectorShape(src)
    ensures !isVector ==> calls == []
    ensures isVector ==> calls == Walk(PointPrefix(Items(src.shape.vect))).1
  {
    if !(src.mode == Shape && src.shape.shape == "vect") {
      return false, [];
    }
    var items := Items(src.shape.vect);
    ghost var ps := PointPrefix(items);
    var x1, y1, x2, y2 := VectorPoints.Uninit, VectorPoints.Uninit, VectorPoints.Uninit, VectorPoints.Uninit;
    calls := [];
    var i := 0;
    while i < |items|
      invariant 0 <= i <= |items| && i <= |ps|
      invariant (VectorPoints.Cursor(x1, y1, x2, y2), calls) == Walk(ps[..i])
    {
      var point := ReadPoint(items[i]);
      PointPrefixNext(items, i);
      if point.None? {
        break;
      }
      var (x, y) := point.value;
      assert ps[..i + 1][..i] == ps[..i] && ps[..i + 1][i] == (x, y);
      ghost var (c', more) := Step(VectorPoints.Cursor(x1, y1, x2, y2), (x, y));
      assert Walk(ps[..i + 1]) == (c', calls + more);
      if x1 == VectorPoints.Uninit {
        assert calls + more == calls;
        x1, y1 := x, y;
      } else if x2 == VectorPoints.Uninit {
        x2, y2 := x, y;
        calls := calls + [VectorPoints.LineCall(x1, y1, x2, y2)];
      } else {
        x1, y1 := x2, y2;
        x2, y2 := x, y;
        calls := calls + [VectorPoints.LineCall(x1, y1, x2, y2)];
      }
      i := i + 1;
    }
    assert ps[..i] == ps;
    isVector := true;
  }

  predicate NoSentinelX(ps: seq<(int, int)>) {
    forall i :: 0 <= i < |ps| ==> ps[i].0 != VectorPoints.Uninit
  }

  /** When no point has x == INT_MAX, the walk calls the callback once for
      each pair of consecutive points, in order: k - 1 calls for k points
      (none for fewer than two), and its cursor remembers the last point. */
  lemma {:induction false} WalkIsPairs(ps: seq<(int, int)>)
    requires NoSentinelX(ps)
    ensures Walk(ps).1 == VectorPoints.Pairs(ps)
    ensures |Walk(ps).1| == if ps == [] then 0 else |ps| - 1
    ensures VectorPoints.CursorOk(Walk(ps).0)
    ensures ps == [] ==> Walk(ps).0 == VectorPoints.Start
    ensures ps != [] ==> VectorPoints.Remembered(Walk(ps).0) == Some(ps[|ps| - 1])
    decreases |ps|
  {
    if ps != [] {
      var init := ps[..|ps| - 1];
      assert NoSentinelX(init) by {
        forall i | 0 <= i < |init| ensures init[i].0 != VectorPoints.Uninit {
          assert init[i] == ps[i];
        }
      }
      WalkIsPairs(init);
      assert ps == init + [ps[|ps| - 1]];
      if |ps| > 1 {
        assert init[|init| - 1] == ps[|ps| - 2];
        VectorPoints.PairsSnoc(init, ps[|ps| - 1]);
      }
    }
  }
}
