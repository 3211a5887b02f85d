/** The triangle recurrence of the reverse Wurzelschnecke (triangle.py):
    rotating a point about an origin, building triangle n from the outside
    right point and rotation of triangle n - 1, and appending a triangle's
    eight values to the column table that is later written out. */
module Triangles {
  import opened Wrappers
  import opened Numeric

  datatype Point = Point(x: real, y: real)

  /** The settings the recurrence reads. `customHypotenuse` is None when the
      custom hypotenuse option is off, and otherwise holds the configured
      hypotenuse function of the triangle number. */
  datatype Config = Config(outsideLeg: real, customHypotenuse: Option<int -> real>)

  /** With a custom hypotenuse the inside leg is sqrt(h^2 - L^2), which has a
      real value for every h > L only when L is not negative. */
  predicate ValidConfig(cfg: Config) {
    cfg.customHypotenuse.Some? ==> cfg.outsideLeg >= 0.0
  }

  /** NotRightTriangleError: no right triangle exists for this number. */
  datatype Error = NotRightTriangle(triangleNumber: int)

  /** One row of the table: number, outside left x and y, outside right x and
      y, inside x and y, rotation. */
  type Row = seq<real>

  const ColumnCount: nat := 8

  /** The column names are eight distinct keys. */
  predicate ValidHeaders(headers: seq<string>) {
    |headers| == ColumnCount
    && forall i, j :: 0 <= i < j < |headers| ==> headers[i] != headers[j]
  }

  /** Squared distance between two points. */
  function Dist2(p: Point, q: Point): real {
    (p.x - q.x) * (p.x - q.x) + (p.y - q.y) * (p.y - q.y)
  }

  /** Counterclockwise rotation of `point` about `origin` by `angle`. The
      distance to the origin is scaled by cos^2 + sin^2 of the angle, whatever
      the backend's functions are, and the origin itself never moves. */
  function RotatePoint(b: Backend, origin: Point, point: Point, angle: real): (r: Point)
    ensures Dist2(r, origin)
            == (b.cos(angle) * b.cos(angle) + b.sin(angle) * b.sin(angle)) * Dist2(point, origin)
    ensures point == origin ==> r == origin
  {
    var c, s := b.cos(angle), b.sin(angle);
    var dx, dy := point.x - origin.x, point.y - origin.y;
    var r := Point(origin.x + c * dx - s * dy, origin.y + s * dx + c * dy);
    assert (c * dx - s * dy) * (c * dx - s * dy) + (s * dx + c * dy) * (s * dx + c * dy)
           == (c * c + s * s) * (dx * dx + dy * dy);
    r
  }

  /** The inside leg of triangle n: sqrt(n) by default; with a custom
      hypotenuse h, NotRightTriangle(n) when h(n) <= L and otherwise
      sqrt(h(n)^2 - L^2). It is positive whenever it exists. */
  function InsideLeg(b: Backend, cfg: Config, n: int): (r: Result<real, Error>)
    requires n >= 1 && ValidConfig(cfg) && SqrtPositive(b)
    ensures r.Err? <==> cfg.customHypotenuse.Some? && cfg.customHypotenuse.value(n) <= cfg.outsideLeg
    ensures r.Err? ==> r.error == NotRightTriangle(n)
    ensures r.Ok? ==> r.value > 0.0
  {
    match cfg.customHypotenuse
    case Some(hypotenuse) =>
      var h, l := hypotenuse(n), cfg.outsideLeg;
      if h <= l then
        Err(NotRightTriangle(n))
      else
        SquareGap(h, l);
        Ok(b.sqrt(h * h - l * l))
    case None =>
      Ok(b.sqrt(n as real))
  }

  /** Triangle n of the series. Triangle 1 is the fixed base triangle; every
      later triangle hangs off the previous outside right point. The custom
      hypotenuse is consulted, and may fail, before the number is looked at,
      so triangle 1 can fail too. */
  function CalculateTriangle(b: Backend, cfg: Config, n: int, rotation: real, previous: Option<Point>)
    : (r: Result<Triangle, Error>)
    requires n >= 1 && ValidConfig(cfg) && SqrtPositive(b)
    requires n != 1 ==> previous.Some?
    ensures r.Err? <==> cfg.customHypotenuse.Some? && cfg.customHypotenuse.value(n) <= cfg.outsideLeg
    ensures r.Err? ==> r.error == NotRightTriangle(n)
    ensures r.Ok? ==> r.value.number == n
  {
    var l := cfg.outsideLeg;
    match InsideLeg(b, cfg, n)
    case Err(e) => Err(e)
    case Ok(leg) =>
      if n == 1 then
        Ok(Triangle(Point(-l, leg), Point(0.0, leg), Point(0.0, 0.0), n, rotation))
      else
        var p := previous.value;
        var outsideRight := Point(p.x + l, p.y);
        var inside := Point(p.x + l, p.y - leg);
        var rotation' := rotation + b.atan(l / leg);
        Ok(Triangle(p, RotatePoint(b, p, outsideRight, -rotation'),
                    RotatePoint(b, p, inside, -rotation'), n, rotation'))
  }

  /** Rotating by angle 0 leaves every point where it is. */
  lemma RotateByZero(b: Backend, origin: Point, point: Point)
    requires CosSinAtZero(b)
    ensures RotatePoint(b, origin, point, 0.0) == point
  {
  }

  /** With cos^2 + sin^2 = 1 a rotation keeps the distance to the origin. */
  lemma RotatePreservesDistance(b: Backend, origin: Point, point: Point, angle: real)
    requires Pythagorean(b)
    ensures Dist2(RotatePoint(b, origin, point, angle), origin) == Dist2(point, origin)
  {
    var c, s := b.cos(angle), b.sin(angle);
    assert c * c + s * s == 1.0;
    UnitScale(c * c + s * s, Dist2(point, origin));
  }

  /** Rotating back by the opposite angle undoes a rotation. */
  lemma RotateInverse(b: Backend, origin: Point, point: Point, angle: real)
    requires Pythagorean(b) && Symmetric(b)
    ensures RotatePoint(b, origin, RotatePoint(b, origin, point, angle), -angle) == point
  {
    var c, s := b.cos(angle), b.sin(angle);
    assert b.cos(-angle) == c && b.sin(-angle) == -s;
    assert c * c + s * s == 1.0;
    var dx, dy := point.x - origin.x, point.y - origin.y;
    var q := RotatePoint(b, origin, point, angle);
    assert q.x - origin.x == c * dx - s * dy;
    assert q.y - origin.y == s * dx + c * dy;
    assert c * (c * dx - s * dy) + s * (s * dx + c * dy) == (c * c + s * s) * dx;
    assert -s * (c * dx - s * dy) + c * (s * dx + c * dy) == (c * c + s * s) * dy;
  }

  /** Triangle 1 is the base triangle (-L, leg), (0, leg), (0, 0) whatever
      point is passed in, and it keeps the incoming rotation. */
  lemma FirstTriangle(b: Backend, cfg: Config, rotation: real, previous: Option<Point>)
    requires ValidConfig(cfg) && SqrtPositive(b)
    ensures var r := CalculateTriangle(b, cfg, 1, rotation, previous);
            r.Ok? ==> r == CalculateTriangle(b, cfg, 1, rotation, None)
                      && var leg := InsideLeg(b, cfg, 1).value;
                         r.value == Triangle(Point(-cfg.outsideLeg, leg), Point(0.0, leg), Point(0.0, 0.0), 1, rotation)
  {
  }

  /** Without a custom hypotenuse, and with sqrt(1) = 1, triangle 1 is
      (-L, 1), (0, 1), (0, 0). */
  lemma FirstTriangleDefault(b: Backend, cfg: Config, rotation: real, previous: Option<Point>)
    requires ValidConfig(cfg) && SqrtSound(b) && cfg.customHypotenuse.None?
    ensures SqrtPositive(b)
    ensures CalculateTriangle(b, cfg, 1, rotation, previous)
            == Ok(Triangle(Point(-cfg.outsideLeg, 1.0), Point(0.0, 1.0), Point(0.0, 0.0), 1, rotation))
  {
    SqrtSoundIsPositive(b);
    SqrtOfOne(b);
  }

  /** Every later triangle starts where the previous one ended: its outside
      left point is the previous outside right point, and its rotation is the
      incoming rotation plus atan(L / inside leg). */
  lemma NextTriangle(b: Backend, cfg: Config, n: int, rotation: real, previous: Point)
    requires n > 1 && ValidConfig(cfg) && SqrtPositive(b)
    ensures var r := CalculateTriangle(b, cfg, n, rotation, Some(previous));
            r.Ok? ==> var leg := InsideLeg(b, cfg, n).value;
                      r.value.outsideLeft == previous
                      && r.value.rotation == rotation + b.atan(cfg.outsideLeg / leg)
  {
  }

  /** With sqrt a true square root, the inside leg squared is n by default and
      h(n)^2 - L^2 with a custom hypotenuse h. */
  lemma InsideLegSquared(b: Backend, cfg: Config, n: int)
    requires n >= 1 && ValidConfig(cfg) && SqrtSound(b)
    ensures SqrtPositive(b)
    ensures var r := InsideLeg(b, cfg, n);
            r.Ok? ==> r.value * r.value
                      == match cfg.customHypotenuse
                         case None => n as real
                         case Some(h) => h(n) * h(n) - cfg.outsideLeg * cfg.outsideLeg
  {
    SqrtSoundIsPositive(b);
    if cfg.customHypotenuse.Some? {
      var h, l := cfg.customHypotenuse.value(n), cfg.outsideLeg;
      if h > l {
        SquareGap(h, l);
      }
    }
  }

  /** Every triangle is a right triangle with the right angle at its outside
      right point: the outside leg has length L, the inside leg has the length
      InsideLeg gives, and the hypotenuse squared is their sum of squares. */
  lemma TriangleIsRight(b: Backend, cfg: Config, n: int, rotation: real, previous: Option<Point>)
    requires n >= 1 && ValidConfig(cfg) && SqrtPositive(b) && Pythagorean(b)
    requires n != 1 ==> previous.Some?
    ensures var r := CalculateTriangle(b, cfg, n, rotation, previous);
            r.Ok? ==> RightTriangle(r.value, cfg.outsideLeg, InsideLeg(b, cfg, n).value)
  {
    var r := CalculateTriangle(b, cfg, n, rotation, previous);
    if r.Ok? {
      var t, l, leg := r.value, cfg.outsideLeg, InsideLeg(b, cfg, n).value;
      if n == 1 {
        assert t == Triangle(Point(-l, leg), Point(0.0, leg), Point(0.0, 0.0), n, rotation);
        BaseTriangleSides(l, leg, n, rotation);
      } else {
        var p := previous.value;
        var angle := -(rotation + b.atan(l / leg));
        assert t.outsideLeft == p;
        assert t.outsideRight == RotatePoint(b, p, Point(p.x + l, p.y), angle);
        assert t.inside == RotatePoint(b, p, Point(p.x + l, p.y - leg), angle);
        RotatedLegs(b, p, l, leg, angle);
      }
    }
  }

  lemma BaseTriangleSides(l: real, leg: real, n: int, rotation: real)
    ensures RightTriangle(Triangle(Point(-l, leg), Point(0.0, leg), Point(0.0, 0.0), n, rotation), l, leg)
  {
  }

  /** `t` is a right triangle with the right angle at its outside right point,
      outside leg `l` and inside leg `leg`: the three sides satisfy
      Pythagoras' relation. */
  ghost predicate RightTriangle(t: Triangle, l: real, leg: real) {
    Dist2(t.outsideRight, t.outsideLeft) == l * l
    && Dist2(t.inside, t.outsideRight) == leg * leg
    && Dist2(t.inside, t.outsideLeft) == l * l + leg * leg
  }

  /** A later triangle rotates two points about the previous outside right
      point p: one l to the right of p, one l to the right and leg below it.
      After the rotation the first is still l from p, the second still
      sqrt(l^2 + leg^2) from p, and the two are leg apart. */
  lemma RotatedLegs(b: Backend, p: Point, l: real, leg: real, angle: real)
    requires Pythagorean(b)
    ensures var o, i := RotatePoint(b, p, Point(p.x + l, p.y), angle),
                        RotatePoint(b, p, Point(p.x + l, p.y - leg), angle);
            Dist2(o, p) == l * l && Dist2(i, p) == l * l + leg * leg && Dist2(i, o) == leg * leg
  {
    LegOffsets(p, l, leg);
    RotatePreservesDistance(b, p, Point(p.x + l, p.y), angle);
    RotatePreservesDistance(b, p, Point(p.x + l, p.y - leg), angle);
    RotatedInsideLeg(b, p, l, leg, angle);
  }

  /** The rotated inside leg still has length leg. */
  lemma RotatedInsideLeg(b: Backend, p: Point, l: real, leg: real, angle: real)
    requires Pythagorean(b)
    ensures Dist2(RotatePoint(b, p, Point(p.x + l, p.y - leg), angle),
                  RotatePoint(b, p, Point(p.x + l, p.y), angle)) == leg * leg
  {
    RotatedOffset(b, p, l, leg, angle);
    LegFromOffset(RotatePoint(b, p, Point(p.x + l, p.y), angle),
                  RotatePoint(b, p, Point(p.x + l, p.y - leg), angle),
                  b.cos(angle), b.sin(angle), leg);
  }

  /** A point offset by (s * leg, -(c * leg)), with c^2 + s^2 = 1, is leg
      away. */
  lemma LegFromOffset(o: Point, i: Point, c: real, s: real, leg: real)
    requires c * c + s * s == 1.0
    requires i.x - o.x == s * leg && i.y - o.y == -(c * leg)
    ensures Dist2(i, o) == leg * leg
  {
    Dist2Of(i, o, s * leg, -(c * leg));
    ScaledSquares(c, s, leg);
    UnitScale(c * c + s * s, leg * leg);
  }

  /** Before the rotation the two points are l and sqrt(l^2 + leg^2) from p. */
  lemma LegOffsets(p: Point, l: real, leg: real)
    ensures Dist2(Point(p.x + l, p.y), p) == l * l
    ensures Dist2(Point(p.x + l, p.y - leg), p) == l * l + leg * leg
  {
  }

  /** After the rotation the second point is the first one moved by the
      rotated leg vector. */
  lemma RotatedOffset(b: Backend, p: Point, l: real, leg: real, angle: real)
    ensures var o, i := RotatePoint(b, p, Point(p.x + l, p.y), angle),
                        RotatePoint(b, p, Point(p.x + l, p.y - leg), angle);
            i.x - o.x == b.sin(angle) * leg && i.y - o.y == -(b.cos(angle) * leg)
  {
  }

  lemma UnitScale(k: real, x: real)
    requires k == 1.0
    ensures k * x == x
  {
  }

  lemma Dist2Of(p: Point, q: Point, dx: real, dy: real)
    requires p.x - q.x == dx && p.y - q.y == dy
    ensures Dist2(p, q) == dx * dx + dy * dy
  {
  }

  lemma ScaledSquares(c: real, s: real, v: real)
    ensures (s * v) * (s * v) + (-(c * v)) * (-(c * v)) == (c * c + s * s) * (v * v)
  {
  }

  /** A computed triangle: its three vertices, its position in the series and
      the accumulated rotation. */
  datatype Triangle = Triangle(outsideLeft: Point, outsideRight: Point, inside: Point, number: int, rotation: real)
  {
    /** The triangle's values in column order. */
    function Fields(): (r: Row)
      ensures |r| == ColumnCount
      ensures Triangle(Point(r[1], r[2]), Point(r[3], r[4]), Point(r[5], r[6]), r[0].Floor, r[7]) == this
    {
      [number as real, outsideLeft.x, outsideLeft.y, outsideRight.x, outsideRight.y,
       inside.x, inside.y, rotation]
    }

    /** Appends this triangle's values to the table, one value to each
        column, in column order. */
    method SaveTriangleData(data: TriangleData)
      requires data.Valid()
      modifies data
      ensures data.Valid()
      ensures data.columns.Keys == old(data.columns.Keys)
      ensures forall j :: 0 <= j < ColumnCount ==>
                data.columns[data.headers[j]] == old(data.columns[data.headers[j]]) + [Fields()[j]]
      ensures data.Rows() == old(data.Rows()) + [Fields()]
    {
      data.AppendToColumn(0, number as real);
      data.AppendToColumn(1, outsideLeft.x);
      data.AppendToColumn(2, outsideLeft.y);
      data.AppendToColumn(3, outsideRight.x);
      data.AppendToColumn(4, outsideRight.y);
      data.AppendToColumn(5, inside.x);
      data.AppendToColumn(6, inside.y);
      data.AppendToColumn(7, rotation);
      TableAppend(data.headers, old(data.columns), data.columns, Fields());
    }
  }

  /** There is one column per header and no other. */
  predicate HasColumns(headers: seq<string>, columns: map<string, seq<real>>) {
    ValidHeaders(headers)
    && (forall j :: 0 <= j < ColumnCount ==> headers[j] in columns)
    && (forall key :: key in columns ==> key in headers)
  }

  /** The columns hold exactly the header keys, all of one length. */
  predicate ValidTable(headers: seq<string>, columns: map<string, seq<real>>) {
    HasColumns(headers, columns)
    && forall j :: 0 <= j < ColumnCount ==> |columns[headers[j]]| == |columns[headers[0]]|
  }

  /** The columns read row by row, each row in header order. */
  function Table(headers: seq<string>, columns: map<string, seq<real>>): (rows: seq<Row>)
    requires ValidTable(headers, columns)
    ensures |rows| == |columns[headers[0]]|
    ensures forall i :: 0 <= i < |rows| ==> |rows[i]| == ColumnCount
    ensures forall i, j :: 0 <= i < |rows| && 0 <= j < ColumnCount ==> rows[i][j] == columns[headers[j]][i]
  {
    seq(|columns[headers[0]]|, i requires 0 <= i < |columns[headers[0]]| =>
      seq(ColumnCount, j requires 0 <= j < ColumnCount => columns[headers[j]][i]))
  }

  /** Growing every column by the matching value of `row` adds `row` as the
      last row and changes no earlier row. */
  lemma TableAppend(headers: seq<string>, columns: map<string, seq<real>>,
                    columns': map<string, seq<real>>, row: Row)
    requires ValidTable(headers, columns) && |row| == ColumnCount
    requires columns'.Keys == columns.Keys
    requires forall j :: 0 <= j < ColumnCount ==> columns'[headers[j]] == columns[headers[j]] + [row[j]]
    ensures ValidTable(headers, columns')
    ensures Table(headers, columns') == Table(headers, columns) + [row]
  {
    var rows, rows' := Table(headers, columns), Table(headers, columns');
    forall i | 0 <= i < |rows'|
      ensures rows'[i] == (rows + [row])[i]
    {
      if i < |rows| {
        assert forall j :: 0 <= j < ColumnCount ==> rows'[i][j] == rows[i][j];
      } else {
        assert forall j :: 0 <= j < ColumnCount ==> rows'[i][j] == row[j];
      }
    }
  }

  /** The table of columns keyed by the header names (a dictionary of lists
      in the source), filled row by row before it is written out. */
  class TriangleData {
    const headers: seq<string>
    var columns: map<string, seq<real>>

    ghost predicate Valid()
      reads this
    {
      ValidTable(headers, columns)
    }

    /** Starts with one empty column per header. */
    constructor (headers: seq<string>)
      requires ValidHeaders(headers)
      ensures Valid() && this.headers == headers && Rows() == []
    {
      this.headers := headers;
      columns := map key | key in headers :: [];
    }

    /** The table read row by row. */
    function Rows(): seq<Row>
      reads this
      requires Valid()
    {
      Table(headers, columns)
    }

    /** Appends one value to the column of the j-th header; the other
        columns are untouched. */
    method AppendToColumn(j: nat, v: real)
      requires j < ColumnCount && HasColumns(headers, columns)
      modifies this
      ensures HasColumns(headers, columns) && columns.Keys == old(columns.Keys)
      ensures columns[headers[j]] == old(columns[headers[j]]) + [v]
      ensures forall k :: 0 <= k < ColumnCount && k != j ==> columns[headers[k]] == old(columns[headers[k]])
    {
      columns := columns[headers[j] := columns[headers[j]] + [v]];
    }
  }
}
