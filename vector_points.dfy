/** ForEachVectorPointsPair: the walk over the points of a "vect" shape,
    reporting markers and the lines between consecutive points. The two
    drawer callbacks are modelled as the log of calls they receive. */
module VectorPoints {
  import opened Basics
  import opened JsonValue
  import opened Drawables

  /** The sentinel meaning "no point seen yet" (INT_MAX). */
  const Uninit: int := IntMax

  datatype VectorCall =
    | LineCall(x1: int, y1: int, x2: int, y2: int)
    | MarkerCall(marker: Marker, fontSize: int)

  /** Only shape items whose shape is "vect" are walked. */
  predicate IsVectorShape(d: DrawItem) {
    d.mode == Shape && d.shape.shape == "vect"
  }

  /** The points read before the first one whose x, y or marker fields fail to read. */
  function ParsedPrefix(items: seq<Json>): (r: seq<Marker>)
    ensures |r| <= |items|
    ensures |r| < |items| ==> ParsePoint(items[|r|]).None?
  {
    if items == [] then []
    else match ParsePoint(items[0])
      case None => []
      case Some(p) => [p] + ParsedPrefix(items[1..])
  }

  /** The readable points are the items' points, in order. */
  lemma {:induction false} ParsedPrefixAt(items: seq<Json>, i: nat)
    requires i < |ParsedPrefix(items)|
    ensures ParsePoint(items[i]) == Some(ParsedPrefix(items)[i])
    decreases i
  {
    if i > 0 {
      ParsedPrefixAt(items[1..], i - 1);
    }
  }

  /** The loop reads point i exactly when i is inside the readable prefix. */
  lemma ParsedPrefixNext(items: seq<Json>, i: nat)
    requires i < |items| && i <= |ParsedPrefix(items)|
    ensures ParsePoint(items[i]).Some? ==> i < |ParsedPrefix(items)| && ParsedPrefix(items)[i] == ParsePoint(items[i]).value
    ensures ParsePoint(items[i]).None? ==> i == |ParsedPrefix(items)|
  {
    if i < |ParsedPrefix(items)| {
      ParsedPrefixAt(items, i);
    }
  }

  /** The sentinel variables x1, y1, x2, y2. */
  datatype Cursor = Cursor(x1: int, y1: int, x2: int, y2: int)

  const Start := Cursor(Uninit, Uninit, Uninit, Uninit)

  function MarkerCalls(p: Marker, fontSize: int): seq<VectorCall> {
    if MarkerIsSet(p) then [MarkerCall(p, fontSize)] else []
  }

  /** One loop iteration on an accepted point: the marker call, then the sentinel update and line. */
  function Step(c: Cursor, p: Marker, fontSize: int): (Cursor, seq<VectorCall>) {
    var m := MarkerCalls(p, fontSize);
    if c.x1 == Uninit then (c.(x1 := p.x, y1 := p.y), m)
    else if c.x2 == Uninit then (c.(x2 := p.x, y2 := p.y), m + [LineCall(c.x1, c.y1, p.x, p.y)])
    else (Cursor(c.x2, c.y2, p.x, p.y), m + [LineCall(c.x2, c.y2, p.x, p.y)])
  }

  /** The cursor and the calls after the loop has accepted the points ps. */
  function Run(ps: seq<Marker>, fontSize: int): (Cursor, seq<VectorCall>)
    decreases |ps|
  {
    if ps == [] then (Start, [])
    else
      var (c, calls) := Run(ps[..|ps| - 1], fontSize);
      var (c', more) := Step(c, ps[|ps| - 1], fontSize);
      (c', calls + more)
  }

  lemma RunSnoc(ps: seq<Marker>, k: nat, fontSize: int)
    requires k < |ps|
    ensures Run(ps[..k + 1], fontSize)
            == (Step(Run(ps[..k], fontSize).0, ps[k], fontSize).0,
                Run(ps[..k], fontSize).1 + Step(Run(ps[..k], fontSize).0, ps[k], fontSize).1)
  {
    assert ps[..k + 1][..k] == ps[..k];
  }

  /** ForEachVectorPointsPair: false and no calls for anything but a "vect"
      shape; otherwise the calls of the walk over the readable points. */
  method ForEachVectorPointsPair(src: DrawItem) returns (isVector: bool, calls: seq<VectorCall>)
    ensures isVector == IsVectorShape(src)
    ensures !isVector ==> calls == []
    ensures isVector ==> calls == Run(ParsedPrefix(Items(src.shape.vect)), src.shape.vectorFontSize).1
  {
    if !(src.mode == Shape && src.shape.shape == "vect") {
      return false, [];
    }
    var items := Items(src.shape.vect);
    var fontSize := src.shape.vectorFontSize;
    ghost var ps := ParsedPrefix(items);
    var x1, y1, x2, y2 := Uninit, Uninit, Uninit, Uninit;
    calls := [];
    var i := 0;
    while i < |items|
      invariant 0 <= i <= |items| && i <= |ps|
      invariant (Cursor(x1, y1, x2, y2), calls) == Run(ps[..i], fontSize)
    {
      var point := ParsePoint(items[i]);
      ParsedPrefixNext(items, i);
      if point.None? {
        break;
      }
      var p := point.value;
      RunSnoc(ps, i, fontSize);
      ghost var step := Step(Cursor(x1, y1, x2, y2), p, fontSize);
      ghost var before := calls;
      if MarkerIsSet(p) {
        calls := calls + [MarkerCall(p, fontSize)];
      }
      assert calls == before + MarkerCalls(p, fontSize);
      if x1 == Uninit {
        x1, y1 := p.x, p.y;
      } else if x2 == Uninit {
        x2, y2 := p.x, p.y;
        calls := calls + [LineCall(x1, y1, x2, y2)];
        assert calls == before + (MarkerCalls(p, fontSize) + [LineCall(x1, y1, x2, y2)]);
      } else {
        x1, y1 := x2, y2;
        x2, y2 := p.x, p.y;
        calls := calls + [LineCall(x1, y1, x2, y2)];
        assert calls == before + (MarkerCalls(p, fontSize) + [LineCall(x1, y1, x2, y2)]);
      }
      assert (Cursor(x1, y1, x2, y2), calls) == (step.0, before + step.1);
      i := i + 1;
    }
    assert ps[..i] == ps;
    isVector := true;
  }

  // ---------------------------------------------------------------------
  // Reference definition: markers, and one line per consecutive pair.

  /** The calls the walk is meant to make: for each point its marker, then
      the line from the previous point to it. */
  function Reference(ps: seq<Marker>, fontSize: int): seq<VectorCall>
    decreases |ps|
  {
    if ps == [] then []
    else
      var last := ps[|ps| - 1];
      Reference(ps[..|ps| - 1], fontSize) + MarkerCalls(last, fontSize) + LastLine(ps)
  }

  /** The previous point a cursor remembers. */
  function Remembered(c: Cursor): Option<(int, int)> {
    if c.x1 == Uninit then None
    else if c.x2 == Uninit then Some((c.x1, c.y1))
    else Some((c.x2, c.y2))
  }

  predicate CursorOk(c: Cursor) {
    c.x1 == Uninit ==> c.x2 == Uninit
  }

  predicate NoSentinelX(ps: seq<Marker>) {
    forall i :: 0 <= i < |ps| ==> ps[i].x != Uninit
  }

  /** When no point has x == INT_MAX the walk makes exactly the reference
      calls, and its cursor remembers the last point. */
  lemma {:induction false} RunMatchesReference(ps: seq<Marker>, fontSize: int)
    requires NoSentinelX(ps)
    ensures Run(ps, fontSize).1 == Reference(ps, fontSize)
    ensures CursorOk(Run(ps, fontSize).0)
    ensures ps == [] ==> Run(ps, fontSize).0 == Start
    ensures ps != [] ==> Remembered(Run(ps, fontSize).0) == Some((ps[|ps| - 1].x, ps[|ps| - 1].y))
    decreases |ps|
  {
    if ps != [] {
      var init := ps[..|ps| - 1];
      assert NoSentinelX(init) by {
        forall i | 0 <= i < |init| ensures init[i].x != Uninit {
          assert init[i] == ps[i];
        }
      }
      RunMatchesReference(init, fontSize);
      if |ps| > 1 {
        assert init[|init| - 1] == ps[|ps| - 2];
      }
    }
  }

  /** The line calls of a call log, in order. */
  function Lines(calls: seq<VectorCall>): seq<VectorCall>
    decreases |calls|
  {
    if calls == [] then []
    else (if calls[0].LineCall? then [calls[0]] else []) + Lines(calls[1..])
  }

  /** The marker calls of a call log, in order. */
  function Markers(calls: seq<VectorCall>): seq<VectorCall>
    decreases |calls|
  {
    if calls == [] then []
    else (if calls[0].MarkerCall? then [calls[0]] else []) + Markers(calls[1..])
  }

  lemma {:induction false} LinesAppend(a: seq<VectorCall>, b: seq<VectorCall>)
    ensures Lines(a + b) == Lines(a) + Lines(b)
    ensures Markers(a + b) == Markers(a) + Markers(b)
    decreases |a|
  {
    if a != [] {
      assert (a + b)[0] == a[0] && (a + b)[1..] == a[1..] + b;
      LinesAppend(a[1..], b);
      var l := if a[0].LineCall? then [a[0]] else [];
      var m := if a[0].MarkerCall? then [a[0]] else [];
      assert Lines(a + b) == l + Lines(a[1..] + b);
      assert Markers(a + b) == m + Markers(a[1..] + b);
    } else {
      assert a + b == b;
    }
  }

  /** The lines joining consecutive coordinates. */
  function Pairs(pts: seq<(int, int)>): (r: seq<VectorCall>)
    ensures |r| == if |pts| < 2 then 0 else |pts| - 1
  {
    if |pts| < 2 then []
    else seq(|pts| - 1, k requires 0 <= k < |pts| - 1 => LineCall(pts[k].0, pts[k].1, pts[k + 1].0, pts[k + 1].1))
  }

  function Coords(ps: seq<Marker>): (r: seq<(int, int)>)
    ensures |r| == |ps|
    ensures forall i :: 0 <= i < |ps| ==> r[i] == (ps[i].x, ps[i].y)
  {
    seq(|ps|, i requires 0 <= i < |ps| => (ps[i].x, ps[i].y))
  }

  /** The markers of the points whose marker colour is set, in order. */
  function SetMarkers(ps: seq<Marker>, fontSize: int): seq<VectorCall>
    decreases |ps|
  {
    if ps == [] then [] else SetMarkers(ps[..|ps| - 1], fontSize) + MarkerCalls(ps[|ps| - 1], fontSize)
  }

  lemma PairsSnoc(pts: seq<(int, int)>, q: (int, int))
    requires pts != []
    ensures Pairs(pts + [q]) == Pairs(pts) + [LineCall(pts[|pts| - 1].0, pts[|pts| - 1].1, q.0, q.1)]
  {
    var r := Pairs(pts + [q]);
    var e := Pairs(pts) + [LineCall(pts[|pts| - 1].0, pts[|pts| - 1].1, q.0, q.1)];
    assert |r| == |e|;
    forall k | 0 <= k < |r| ensures r[k] == e[k] {
      if k < |r| - 1 {
        assert (pts + [q])[k] == pts[k] && (pts + [q])[k + 1] == pts[k + 1];
      }
    }
  }

  /** The reference lines are the lines between consecutive points, in order. */
  lemma {:induction false} ReferenceLines(ps: seq<Marker>, fontSize: int)
    ensures Lines(Reference(ps, fontSize)) == Pairs(Coords(ps))
    decreases |ps|
  {
    if ps != [] {
      var init := ps[..|ps| - 1];
      ReferenceLines(init, fontSize);
      ReferenceStepLines(ps, fontSize);
      CoordsPairsSnoc(ps);
    }
  }

  /** The last point adds its line, if any, to the reference lines. */
  lemma ReferenceStepLines(ps: seq<Marker>, fontSize: int)
    requires ps != []
    ensures Lines(Reference(ps, fontSize)) == Lines(Reference(ps[..|ps| - 1], fontSize)) + LastLine(ps)
  {
    var last := ps[|ps| - 1];
    var m := MarkerCalls(last, fontSize);
    var line := LastLine(ps);
    var prior := Reference(ps[..|ps| - 1], fontSize);
    assert Reference(ps, fontSize) == prior + m + line;
    LinesAppend(prior + m, line);
    LinesAppend(prior, m);
    assert Lines(m) == [];
    assert Lines(line) == line by {
      if line != [] { assert line[1..] == []; }
    }
  }

  /** The line from the second-to-last point to the last one, if there are two. */
  function LastLine(ps: seq<Marker>): seq<VectorCall> {
    if |ps| > 1 then [LineCall(ps[|ps| - 2].x, ps[|ps| - 2].y, ps[|ps| - 1].x, ps[|ps| - 1].y)] else []
  }

  lemma CoordsPairsSnoc(ps: seq<Marker>)
    requires ps != []
    ensures Pairs(Coords(ps)) == Pairs(Coords(ps[..|ps| - 1])) + LastLine(ps)
  {
    var init := ps[..|ps| - 1];
    var last := ps[|ps| - 1];
    assert Coords(ps) == Coords(init) + [(last.x, last.y)];
    if |ps| > 1 {
      PairsSnoc(Coords(init), (last.x, last.y));
    } else {
      assert Coords(init) == [];
    }
  }

  /** The reference markers are one per point whose marker colour is set. */
  lemma {:induction false} ReferenceMarkers(ps: seq<Marker>, fontSize: int)
    ensures Markers(Reference(ps, fontSize)) == SetMarkers(ps, fontSize)
    decreases |ps|
  {
    if ps != [] {
      var init := ps[..|ps| - 1];
      var last := ps[|ps| - 1];
      var m := MarkerCalls(last, fontSize);
      var line := LastLine(ps);
      ReferenceMarkers(init, fontSize);
      LinesAppend(Reference(init, fontSize) + m, line);
      LinesAppend(Reference(init, fontSize), m);
      assert Markers(m) == m by {
        if m != [] { assert m[1..] == []; }
      }
      assert Markers(line) == [] by {
        if line != [] { assert line[1..] == []; }
      }
    }
  }

  /** For k readable points without the INT_MAX sentinel: k - 1 lines on
      consecutive pairs (none for k = 0) and one marker per set marker. */
  lemma VectorCallCounts(ps: seq<Marker>, fontSize: int)
    requires NoSentinelX(ps)
    ensures Lines(Run(ps, fontSize).1) == Pairs(Coords(ps))
    ensures |Lines(Run(ps, fontSize).1)| == if ps == [] then 0 else |ps| - 1
    ensures Markers(Run(ps, fontSize).1) == SetMarkers(ps, fontSize)
  {
    RunMatchesReference(ps, fontSize);
    ReferenceLines(ps, fontSize);
    ReferenceMarkers(ps, fontSize);
  }

  /** A point at x == INT_MAX is taken for the sentinel: the next point
      starts the polyline afresh, so three points give a single line. */
  lemma SentinelPointIsUnseen()
    ensures Run([Marker(IntMax, 0, "", "", ""), Marker(1, 1, "", "", ""), Marker(2, 2, "", "", "")], 0).1
            == [LineCall(1, 1, 2, 2)]
  {
    var ps := [Marker(IntMax, 0, "", "", ""), Marker(1, 1, "", "", ""), Marker(2, 2, "", "", "")];
    assert ps[..0] == [];
    RunSnoc(ps, 0, 0);
    assert Run(ps[..1], 0) == (Cursor(IntMax, 0, Uninit, Uninit), []);
    RunSnoc(ps, 1, 0);
    assert Run(ps[..2], 0) == (Cursor(1, 1, Uninit, Uninit), []);
    RunSnoc(ps, 2, 0);
    assert ps[..3] == ps;
  }
}
