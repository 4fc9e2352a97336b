/** The generator's pass over the fetched rows (the `data.forEach` that
    fills `boundsArray`): rows whose coordinates do not parse are skipped
    without a message. */
module ServerFilter {
  import opened Wrappers
  import opened Records
  import Seqs

  /** `boundsArray` after the loop: the point of every row that has one, in
      row order. Each step pushes at most one point for the last row. */
  function Bounds(parse: string -> Option<Coord>, data: seq<Supplier>): (bounds: seq<Point>)
    ensures |bounds| <= |data|
    decreases |data|
  {
    if |data| == 0 then []
    else
      var n := |data| - 1;
      match Coordinates(parse, data[n])
      case None => Bounds(parse, data[..n])
      case Some(p) => Bounds(parse, data[..n]) + [p]
  }

  /** One more row adds its point, if it has one. */
  lemma BoundsStep(parse: string -> Option<Coord>, data: seq<Supplier>)
    requires |data| > 0
    ensures var c := Coordinates(parse, data[|data| - 1]);
            Bounds(parse, data) == Bounds(parse, data[..|data| - 1]) + if c.Some? then [c.value] else []
  {
  }

  /** The relation between a row and the point it contributes. */
  ghost function PointOf(parse: string -> Option<Coord>): (Supplier, Point) -> bool {
    (f: Supplier, p: Point) => Coordinates(parse, f) == Some(p)
  }

  /** The points are exactly those of the rows whose coordinates parse, in
      row order: the j-th point is the point of the j-th such row. */
  lemma {:induction false} BoundsKeepsLocated(parse: string -> Option<Coord>, data: seq<Supplier>)
    ensures Seqs.MapsPicked(Bounds(parse, data), data, LocatedMask(parse, data), PointOf(parse))
    decreases |data|
  {
    if |data| > 0 {
      var n := |data| - 1;
      BoundsKeepsLocated(parse, data[..n]);
      LocatedMaskPrefix(parse, data, n);
      BoundsStep(parse, data);
      var c := Coordinates(parse, data[n]);
      Seqs.MapsPickedStep(Bounds(parse, data[..n]), if c.Some? then [c.value] else [], data, LocatedMask(parse, data), PointOf(parse));
    }
  }
}
