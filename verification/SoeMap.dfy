/** SOE map files: line records stitched into polylines on loading, and written out as records on saving. */
module SoeMap {
  import opened Bytes
  import opened Options

  type int16 = x: int | -0x8000 <= x < 0x8000

  datatype Point = Point(x: int16, y: int16, z: int16)

  datatype Color = Color(r: byte, g: byte, b: byte)

  /** An L record with its nine fields: two end points as written and a colour. */
  datatype Record = Record(x1: int16, y1: int16, z1: int16, x2: int16, y2: int16, z2: int16, rgb: Color)

  /** A line of the file; None when it is not an L record of nine fields. */
  type Entry = Option<Record>

  /** The colour an L record is shown in, from the user's preferences. */
  type Palette = Color -> Color

  datatype Line = Line(points: seq<Point>, color: Color, origColor: Color)

  /** Unary minus on a 16-bit integer: the least one is its own negation. */
  function Neg16(x: int16): int16 {
    if x == -0x8000 then x else -x
  }

  function Near(r: Record): Point { Point(Neg16(r.x1), Neg16(r.y1), r.z1) }

  function Far(r: Record): Point { Point(Neg16(r.x2), Neg16(r.y2), r.z2) }

  // ---- geometry ----

  datatype Segment = Segment(a: Point, b: Point)

  function SegmentsOf(points: seq<Point>): seq<Segment> {
    if |points| < 2 then []
    else SegmentsOf(points[..|points| - 1]) + [Segment(points[|points| - 2], points[|points| - 1])]
  }

  function Geometry(lines: seq<Line>): seq<Segment> {
    if lines == [] then []
    else Geometry(lines[..|lines| - 1]) + SegmentsOf(lines[|lines| - 1].points)
  }

  /** The segments the accepted records draw, in file order. */
  function Drawn(entries: seq<Entry>): seq<Segment> {
    if entries == [] then []
    else
      var e, before := entries[|entries| - 1], Drawn(entries[..|entries| - 1]);
      if e.None? then before else before + [Segment(Far(e.value), Near(e.value))]
  }

  // ---- loading ----

  predicate Differs(a: Color, b: Color) {
    a.r != b.r || a.g != b.g || a.b != b.b
  }

  /** A record goes on with the current line when it starts where that ends, in either of its colours. */
  predicate Continues(line: Line, r: Record) {
    && line.points != [] && line.points[|line.points| - 1] == Far(r)
    && !(Differs(line.color, r.rgb) && Differs(line.origColor, r.rgb))
  }

  function AddRecord(lines: seq<Line>, r: Record, palette: Palette): seq<Line> {
    if lines != [] && Continues(lines[|lines| - 1], r) then
      var line := lines[|lines| - 1];
      lines[..|lines| - 1] + [line.(points := line.points + [Near(r)])]
    else lines + [Line([Far(r), Near(r)], palette(r.rgb), r.rgb)]
  }

  function Load(entries: seq<Entry>, palette: Palette): seq<Line> {
    if entries == [] then []
    else
      var e, before := entries[|entries| - 1], Load(entries[..|entries| - 1], palette);
      if e.None? then before else AddRecord(before, e.value, palette)
  }

  lemma GeometrySnoc(lines: seq<Line>, line: Line)
    ensures Geometry(lines + [line]) == Geometry(lines) + SegmentsOf(line.points)
  {
    hide SegmentsOf;
    assert (lines + [line])[..|lines|] == lines;
  }

  lemma SegmentsSnoc(points: seq<Point>, p: Point)
    requires points != []
    ensures SegmentsOf(points + [p]) == SegmentsOf(points) + [Segment(points[|points| - 1], p)]
  {
    assert (points + [p])[..|points|] == points;
  }

  lemma SegmentsOfTwo(a: Point, b: Point)
    ensures SegmentsOf([a, b]) == [Segment(a, b)]
  {
    SegmentsSnoc([a], b);
    assert [a] + [b] == [a, b];
  }

  lemma AddRecordDraws(lines: seq<Line>, r: Record, palette: Palette)
    ensures Geometry(AddRecord(lines, r, palette)) == Geometry(lines) + [Segment(Far(r), Near(r))]
  {
    hide SegmentsOf, Geometry;
    if lines != [] && Continues(lines[|lines| - 1], r) {
      var init, line := lines[..|lines| - 1], lines[|lines| - 1];
      assert lines == init + [line];
      GeometrySnoc(init, line);
      GeometrySnoc(init, line.(points := line.points + [Near(r)]));
      SegmentsSnoc(line.points, Near(r));
    } else {
      GeometrySnoc(lines, Line([Far(r), Near(r)], palette(r.rgb), r.rgb));
      SegmentsOfTwo(Far(r), Near(r));
    }
  }

  /** Stitching loses, adds and reorders nothing: the polylines draw exactly the records' segments, in order. */
  lemma {:induction false} LoadConserves(entries: seq<Entry>, palette: Palette)
    ensures Geometry(Load(entries, palette)) == Drawn(entries)
  {
    hide AddRecord, Geometry;
    if entries == [] {
      NoGeometry();
    } else {
      var init, e := entries[..|entries| - 1], entries[|entries| - 1];
      LoadConserves(init, palette);
      if e.Some? { AddRecordDraws(Load(init, palette), e.value, palette); }
    }
  }

  lemma NoGeometry()
    ensures Geometry([]) == []
  {
  }

  /** Two neighbouring polylines could not have been one: they do not meet, or their colours differ. */
  predicate Separate(a: Line, b: Line) {
    && |a.points| >= 2 && |b.points| >= 2
    && (a.points[|a.points| - 1] != b.points[0] || (a.color != b.origColor && a.origColor != b.origColor))
  }

  predicate Stitched(lines: seq<Line>) {
    && (forall i :: 0 <= i < |lines| ==> |lines[i].points| >= 2)
    && (forall i :: 0 <= i < |lines| - 1 ==> Separate(lines[i], lines[i + 1]))
  }

  lemma AddRecordStitched(lines: seq<Line>, r: Record, palette: Palette)
    requires Stitched(lines)
    ensures Stitched(AddRecord(lines, r, palette))
  {
    var n, now := |lines|, AddRecord(lines, r, palette);
    forall i | 0 <= i < |now| - 1
      ensures Separate(now[i], now[i + 1])
    {
      if i + 1 < n { assert Separate(lines[i], lines[i + 1]); }
    }
  }

  /** No polyline that loading builds could have been joined to the next one. */
  lemma {:induction false} LoadIsMaximal(entries: seq<Entry>, palette: Palette)
    ensures Stitched(Load(entries, palette))
  {
    hide AddRecord, Stitched;
    if entries == [] {
      NothingStitched();
    } else {
      var init, e := entries[..|entries| - 1], entries[|entries| - 1];
      LoadIsMaximal(init, palette);
      if e.Some? { AddRecordStitched(Load(init, palette), e.value, palette); }
    }
  }

  lemma NothingStitched()
    ensures Stitched([])
  {
  }

  // ---- colours ----

  /** A segment with the two colours of the line it is on. */
  datatype Stroke = Stroke(a: Point, b: Point, shown: Color, orig: Color)

  function StrokesOf(line: Line): seq<Stroke> {
    var segments := SegmentsOf(line.points);
    seq(|segments|, k requires 0 <= k < |segments| =>
      Stroke(segments[k].a, segments[k].b, line.color, line.origColor))
  }

  function Strokes(lines: seq<Line>): seq<Stroke> {
    if lines == [] then [] else Strokes(lines[..|lines| - 1]) + StrokesOf(lines[|lines| - 1])
  }

  /** The L records of a file. */
  function Records(entries: seq<Entry>): seq<Record> {
    if entries == [] then []
    else
      var e, before := entries[|entries| - 1], Records(entries[..|entries| - 1]);
      if e.None? then before else before + [e.value]
  }

  /** The point with the negated x and y of a record's, in 16 bits. */
  predicate Mirrors(p: Point, x: int16, y: int16, z: int16) {
    (p.x + x) % 0x1_0000 == 0 && (p.y + y) % 0x1_0000 == 0 && p.z == z
  }

  /** The stroke goes from the record's second point to its first, on a line that has its colour in one of two ways. */
  predicate Draws(s: Stroke, r: Record) {
    && Mirrors(s.a, r.x2, r.y2, r.z2) && Mirrors(s.b, r.x1, r.y1, r.z1)
    && (s.shown == r.rgb || s.orig == r.rgb)
  }

  predicate DrawsAll(strokes: seq<Stroke>, records: seq<Record>) {
    |strokes| == |records| && forall k :: 0 <= k < |strokes| ==> Draws(strokes[k], records[k])
  }

  /** Line `i` has the colour of the record that its first segment stands for, and is shown as the palette says. */
  predicate ColouredByFirst(lines: seq<Line>, i: nat, records: seq<Record>, palette: Palette)
    requires i < |lines|
  {
    var k := |Strokes(lines[..i])|;
    k < |records| && lines[i].origColor == records[k].rgb && lines[i].color == palette(records[k].rgb)
  }

  lemma StrokesSnoc(lines: seq<Line>, line: Line)
    ensures Strokes(lines + [line]) == Strokes(lines) + StrokesOf(line)
  {
    hide StrokesOf;
    assert (lines + [line])[..|lines|] == lines;
  }

  lemma StrokesExtend(line: Line, p: Point)
    requires line.points != []
    ensures StrokesOf(line.(points := line.points + [p]))
         == StrokesOf(line) + [Stroke(line.points[|line.points| - 1], p, line.color, line.origColor)]
  {
    hide SegmentsOf;
    SegmentsSnoc(line.points, p);
  }

  lemma StrokesOfTwo(a: Point, b: Point, shown: Color, orig: Color)
    ensures StrokesOf(Line([a, b], shown, orig)) == [Stroke(a, b, shown, orig)]
  {
    hide SegmentsOf;
    SegmentsOfTwo(a, b);
  }

  lemma AddRecordStroke(lines: seq<Line>, r: Record, palette: Palette) returns (s: Stroke)
    ensures Strokes(AddRecord(lines, r, palette)) == Strokes(lines) + [s] && Draws(s, r)
  {
    hide StrokesOf, Strokes;
    if lines != [] && Continues(lines[|lines| - 1], r) {
      var init, line := lines[..|lines| - 1], lines[|lines| - 1];
      assert lines == init + [line];
      s := Stroke(line.points[|line.points| - 1], Near(r), line.color, line.origColor);
      StrokesSnoc(init, line);
      StrokesSnoc(init, line.(points := line.points + [Near(r)]));
      StrokesExtend(line, Near(r));
    } else {
      s := Stroke(Far(r), Near(r), palette(r.rgb), r.rgb);
      StrokesSnoc(lines, Line([Far(r), Near(r)], palette(r.rgb), r.rgb));
      StrokesOfTwo(Far(r), Near(r), palette(r.rgb), r.rgb);
    }
  }

  lemma AddRecordColours(lines: seq<Line>, r: Record, palette: Palette, records: seq<Record>)
    requires |Strokes(lines)| == |records|
    requires forall i :: 0 <= i < |lines| ==> ColouredByFirst(lines, i, records, palette)
    ensures var now := AddRecord(lines, r, palette);
            forall i :: 0 <= i < |now| ==> ColouredByFirst(now, i, records + [r], palette)
  {
    hide Continues, Strokes;
    var now := AddRecord(lines, r, palette);
    forall i | 0 <= i < |now|
      ensures ColouredByFirst(now, i, records + [r], palette)
    {
      if i < |lines| {
        assert now[..i] == lines[..i];
        assert ColouredByFirst(lines, i, records, palette);
      } else {
        assert now[..i] == lines;
      }
    }
  }

  /**
   * Stitching keeps every record's colour as well: its segment lies, in file order, on a polyline one of whose two
   * colours is the record's, and the polylines take both colours from the record they begin with.
   */
  lemma {:induction false} LoadKeepsColours(entries: seq<Entry>, palette: Palette)
    ensures DrawsAll(Strokes(Load(entries, palette)), Records(entries))
    ensures forall i :: 0 <= i < |Load(entries, palette)| ==>
              ColouredByFirst(Load(entries, palette), i, Records(entries), palette)
  {
    hide AddRecord, Strokes, Draws, ColouredByFirst;
    if entries == [] {
      NoStrokes();
    } else {
      var init, e := entries[..|entries| - 1], entries[|entries| - 1];
      LoadKeepsColours(init, palette);
      if e.Some? {
        var s := AddRecordStroke(Load(init, palette), e.value, palette);
        AddRecordColours(Load(init, palette), e.value, palette, Records(init));
      }
    }
  }

  lemma NoStrokes()
    ensures Strokes([]) == []
  {
  }

  // ---- saving ----

  /** Coordinates that negate: saving writes minus the coordinate, which the least 16-bit integer does not have. */
  predicate Writable(p: Point) {
    p.x > -0x8000 && p.y > -0x8000
  }

  predicate LinesWritable(lines: seq<Line>) {
    forall i, j :: 0 <= i < |lines| && 0 <= j < |lines[i].points| ==> Writable(lines[i].points[j])
  }

  function RecordOf(last: Point, cur: Point, rgb: Color): Record
    requires Writable(last) && Writable(cur)
  {
    Record(-cur.x, -cur.y, cur.z, -last.x, -last.y, last.z, rgb)
  }

  /** The records written for one polyline. */
  function SaveLine(points: seq<Point>, rgb: Color): seq<Entry>
    requires forall j :: 0 <= j < |points| ==> Writable(points[j])
  {
    if |points| < 2 then []
    else SaveLine(points[..|points| - 1], rgb) + [Some(RecordOf(points[|points| - 2], points[|points| - 1], rgb))]
  }

  /** Which of a line's colours is written depends on whether the first is a valid colour. */
  function Save(lines: seq<Line>, valid: Color -> bool): seq<Entry>
    requires LinesWritable(lines)
  {
    if lines == [] then []
    else
      var init, line := lines[..|lines| - 1], lines[|lines| - 1];
      Save(init, valid) + SaveLine(line.points, if valid(line.color) then line.color else line.origColor)
  }

  lemma {:induction false} DrawnConcat(a: seq<Entry>, b: seq<Entry>)
    ensures Drawn(a + b) == Drawn(a) + Drawn(b)
  {
    if b == [] {
      assert a + b == a;
    } else {
      var init := b[..|b| - 1];
      DrawnConcat(a, init);
      assert (a + b)[..|a + b| - 1] == a + init;
    }
  }

  lemma {:induction false} SaveLineDraws(points: seq<Point>, rgb: Color)
    requires forall j :: 0 <= j < |points| ==> Writable(points[j])
    ensures Drawn(SaveLine(points, rgb)) == SegmentsOf(points)
  {
    if |points| >= 2 {
      var init := points[..|points| - 1];
      SaveLineDraws(init, rgb);
      var last := Some(RecordOf(points[|points| - 2], points[|points| - 1], rgb));
      assert (SaveLine(init, rgb) + [last])[..|SaveLine(init, rgb)|] == SaveLine(init, rgb);
    }
  }

  lemma {:induction false} SaveDraws(lines: seq<Line>, valid: Color -> bool)
    requires LinesWritable(lines)
    ensures Drawn(Save(lines, valid)) == Geometry(lines)
  {
    hide SegmentsOf, SaveLine;
    if lines != [] {
      var init, line := lines[..|lines| - 1], lines[|lines| - 1];
      var rgb := if valid(line.color) then line.color else line.origColor;
      SaveDraws(init, valid);
      SaveLineDraws(line.points, rgb);
      DrawnConcat(Save(init, valid), SaveLine(line.points, rgb));
    }
  }

  /** Whatever colours are written and however the records are stitched again, the drawing is the same. */
  lemma LoadOfSave(lines: seq<Line>, valid: Color -> bool, palette: Palette)
    requires LinesWritable(lines)
    ensures Geometry(Load(Save(lines, valid), palette)) == Geometry(lines)
  {
    SaveDraws(lines, valid);
    LoadConserves(Save(lines, valid), palette);
  }

  /** The records of a line are written in the colour it is shown in, if that is a valid one, else in its first. */
  predicate WrittenIn(records: seq<Record>, strokes: seq<Stroke>, valid: Color -> bool) {
    |records| == |strokes|
    && forall k :: 0 <= k < |records| ==>
         records[k].rgb == if valid(strokes[k].shown) then strokes[k].shown else strokes[k].orig
  }

  lemma {:induction false} RecordsConcat(a: seq<Entry>, b: seq<Entry>)
    ensures Records(a + b) == Records(a) + Records(b)
  {
    if b == [] {
      assert a + b == a;
    } else {
      var init := b[..|b| - 1];
      RecordsConcat(a, init);
      assert (a + b)[..|a + b| - 1] == a + init;
    }
  }

  lemma {:induction false} SaveLineColours(points: seq<Point>, rgb: Color)
    requires forall j :: 0 <= j < |points| ==> Writable(points[j])
    ensures var records := Records(SaveLine(points, rgb));
            |records| == |SegmentsOf(points)| && forall k :: 0 <= k < |records| ==> records[k].rgb == rgb
  {
    if |points| >= 2 {
      var init := points[..|points| - 1];
      SaveLineColours(init, rgb);
      var last := Some(RecordOf(points[|points| - 2], points[|points| - 1], rgb));
      assert (SaveLine(init, rgb) + [last])[..|SaveLine(init, rgb)|] == SaveLine(init, rgb);
    }
  }

  /** Saving writes one record for each segment, in order and in its line's colour. */
  lemma {:induction false} SaveKeepsColours(lines: seq<Line>, valid: Color -> bool)
    requires LinesWritable(lines)
    ensures WrittenIn(Records(Save(lines, valid)), Strokes(lines), valid)
  {
    hide SegmentsOf, SaveLine, Records, Writable;
    if lines == [] {
      NoStrokes();
      NoRecords();
    } else {
      var init, line := lines[..|lines| - 1], lines[|lines| - 1];
      var rgb := if valid(line.color) then line.color else line.origColor;
      SaveKeepsColours(init, valid);
      SaveLineColours(line.points, rgb);
      RecordsConcat(Save(init, valid), SaveLine(line.points, rgb));
    }
  }

  lemma NoRecords()
    ensures Records([]) == []
  {
  }

  // ---- the loop that builds the lines ----

  class MapLineM {
    const color: Color
    const origColor: Color
    var points: seq<Point>

    constructor (color: Color, origColor: Color, size: nat)
      ensures this.color == color && this.origColor == origColor && |points| == size
    {
      this.color, this.origColor := color, origColor;
      points := seq(size, _ => Point(0, 0, 0));
    }

    method Resize(size: nat)
      requires size >= |points|
      modifies this
      ensures |points| == size && points[..old(|points|)] == old(points)
    {
      points := points + seq(size - |points|, _ => Point(0, 0, 0));
    }

    method SetPoint(i: nat, p: Point)
      requires i < |points|
      modifies this
      ensures points == old(points)[i := p]
    {
      points := points[i := p];
    }

    function AsLine(): Line
      reads this
    {
      Line(points, color, origColor)
    }
  }

  function AsLines(ms: seq<MapLineM>): (r: seq<Line>)
    reads ms
    ensures |r| == |ms|
  {
    if ms == [] then [] else AsLines(ms[..|ms| - 1]) + [ms[|ms| - 1].AsLine()]
  }

  /** What the loop knows of the line it is building: its points are all set, and checkPoint is the last of them. */
  predicate Current(ms: seq<MapLineM>, current: MapLineM?, numPoints: nat, checkPoint: nat)
    reads ms
  {
    && (current == null <==> ms == [])
    && (current != null ==>
      current == ms[|ms| - 1] && |current.points| == numPoints && numPoints >= 2 && checkPoint == numPoints - 1)
    && forall i :: 0 <= i < |ms| - 1 ==> ms[i] != ms[|ms| - 1]
  }

  method LoadSoeMap(entries: seq<Entry>, palette: Palette) returns (mLines: seq<MapLineM>)
    ensures AsLines(mLines) == Load(entries, palette)
    ensures forall m :: m in mLines ==> fresh(m)
  {
    hide Continues, AsLines;
    mLines := [];
    AsNoLines();
    var current: MapLineM? := null;
    var numPoints, checkPoint: nat := 0, 0;
    for i := 0 to |entries|
      invariant Current(mLines, current, numPoints, checkPoint)
      invariant forall m :: m in mLines ==> fresh(m)
      invariant AsLines(mLines) == Load(entries[..i], palette)
    {
      assert entries[..i + 1][..i] == entries[..i];
      if entries[i].None? { continue; }
      var r := entries[i].value;
      assert current != null ==> current in mLines;
      mLines, current, numPoints, checkPoint := LoadRecord(mLines, current, numPoints, checkPoint, r, palette);
    }
    assert entries[..|entries|] == entries;
  }

  lemma AsNoLines()
    ensures AsLines([]) == []
  {
  }

  lemma AsLinesSnoc(ms: seq<MapLineM>, m: MapLineM)
    ensures AsLines(ms + [m]) == AsLines(ms) + [m.AsLine()]
  {
    assert (ms + [m])[..|ms|] == ms;
  }

  method LoadRecord(ms: seq<MapLineM>, cur: MapLineM?, points: nat, check: nat, r: Record, palette: Palette)
    returns (mLines: seq<MapLineM>, current: MapLineM?, numPoints: nat, checkPoint: nat)
    requires Current(ms, cur, points, check)
    modifies cur
    ensures Current(mLines, current, numPoints, checkPoint)
    ensures forall m :: m in mLines ==> m in ms || fresh(m)
    ensures AsLines(mLines) == AddRecord(old(AsLines(ms)), r, palette)
  {
    hide AsLines;
    mLines, current, numPoints, checkPoint := ms, cur, points, check;
    ghost var init := if ms == [] then [] else ms[..|ms| - 1];
    if ms != [] {
      assert ms == init + [cur];
      AsLinesSnoc(init, cur);
    }
    if current == null || current.points[checkPoint] != Far(r)
       || (Differs(current.color, r.rgb) && Differs(current.origColor, r.rgb)) {
      numPoints := 0;
      var line := new MapLineM(palette(r.rgb), r.rgb, 2);
      line.SetPoint(numPoints, Far(r));
      numPoints := numPoints + 1;
      checkPoint := numPoints;
      line.SetPoint(checkPoint, Near(r));
      numPoints := numPoints + 1;
      current := line;
      assert line.points == [Far(r), Near(r)];
      AsLinesSnoc(ms, line);
      mLines := ms + [line];
    } else {
      if |current.points| < numPoints + 1 {
        current.Resize(numPoints + 1);
      }
      checkPoint := numPoints;
      current.SetPoint(checkPoint, Near(r));
      numPoints := numPoints + 1;
      assert current.points == old(cur.points) + [Near(r)];
      AsLinesSnoc(init, current);
      assert forall m :: m in init ==> m != current;
    }
  }
}
