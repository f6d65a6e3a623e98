/**
 * The closing step of `plot_radar` in draw_charts.py: the data vector and
 * the angle vector each get their first element appended, so the polygon
 * ends where it starts.
 *
 * Angles are kept by their index: angle k of L axes stands for k * 2pi / L,
 * the k-th point of an evenly spaced sweep that starts at 0 and excludes
 * the full turn.
 */
module Radar {

  /** The points of a closed radar polygon: radii and angle indices. */
  datatype Polygon = Polygon(values: seq<real>, angles: seq<nat>)

  /**
   * Reading element 0 of an empty vector raises IndexError: from the data
   * (no values) or from the angles (no axis labels).
   */
  datatype RadarError = EmptyData | NoAxes

  datatype Result = Ok(polygon: Polygon) | Err(error: RadarError)

  /** The angles of `count` evenly spaced axes, by index. */
  function Angles(count: nat): (r: seq<nat>)
    ensures |r| == count
    ensures forall k :: 0 <= k < count ==> r[k] == k
  {
    seq(count, k => k)
  }

  /** s with its first element appended. */
  function Close<T>(s: seq<T>): (r: seq<T>)
    requires |s| > 0
    ensures |r| == |s| + 1
    ensures r[..|s|] == s
    ensures r[|s|] == r[0] == s[0]
  {
    s + [s[0]]
  }

  /** Dropping the last point of a closed sequence gives back the open one. */
  lemma OpenClose<T>(s: seq<T>)
    requires |s| > 0
    ensures Close(s)[..|Close(s)| - 1] == s
  {
  }

  /**
   * plot_radar's closing step for the radar values data and labelCount
   * axis labels. The data is closed first, so an empty data vector fails
   * before the angles are looked at.
   */
  function ClosePolygon(data: seq<real>, labelCount: nat): (r: Result)
    ensures r.Ok? <==> |data| > 0 && labelCount > 0
    ensures |data| == 0 ==> r == Err(EmptyData)
    ensures |data| > 0 && labelCount == 0 ==> r == Err(NoAxes)
    ensures r.Ok? ==>
      && |r.polygon.values| == |data| + 1
      && r.polygon.values[..|data|] == data
      && r.polygon.values[|data|] == data[0]
      && |r.polygon.angles| == labelCount + 1
      && (forall k :: 0 <= k < labelCount ==> r.polygon.angles[k] == k)
      && r.polygon.angles[labelCount] == 0
  {
    if |data| == 0 then Err(EmptyData)
    else if labelCount == 0 then Err(NoAxes)
    else Ok(Polygon(Close(data), Close(Angles(labelCount))))
  }

  /**
   * Both sequences of a closed polygon end where they start, and the
   * angles without their closing point are the axis angles used for the
   * grid labels.
   */
  lemma ClosedPolygonReturnsToStart(data: seq<real>, labelCount: nat)
    requires |data| > 0 && labelCount > 0
    ensures ClosePolygon(data, labelCount).Ok?
    ensures var p := ClosePolygon(data, labelCount).polygon;
      && p.values[|p.values| - 1] == p.values[0]
      && p.angles[|p.angles| - 1] == p.angles[0] == 0
      && p.angles[..|p.angles| - 1] == Angles(labelCount)
  {
    OpenClose(Angles(labelCount));
  }

  /** Five scores on five axes give six points, the last repeating the first. */
  lemma FiveAxisExample()
    ensures var r := ClosePolygon([3.0, 4.0, 2.0, 5.0, 1.0], 5);
      && r.Ok?
      && r.polygon.values == [3.0, 4.0, 2.0, 5.0, 1.0, 3.0]
      && r.polygon.angles == [0, 1, 2, 3, 4, 0]
  {
    var r := ClosePolygon([3.0, 4.0, 2.0, 5.0, 1.0], 5);
    assert r.polygon.angles == Angles(5) + [0];
    assert Angles(5) == [0, 1, 2, 3, 4];
  }
}
