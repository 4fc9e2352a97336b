/** The rows of the supplier view as the page script sees them in its
    embedded `fornecedores` array, and the coordinate parse both the
    generator and the page apply to them. */
module Records {
  import opened Wrappers

  /** A parsed coordinate, idealised as a real number; floating-point
      rounding is not modelled. */
  type Coord = real

  /** A money amount; the script only prints it. */
  type Amount = real

  /** One service a supplier offers, with what the supplier is paid and
      what is charged for it. */
  datatype Offering = Offering(servico: string, valorAPagar: Amount, valorACobrar: Amount)

  /** One supplier row. The coordinates arrive as text and may be JSON
      `null`. The name is taken to be always present: the page lowercases
      it without a check. The offering list may be `null`; only the
      dropdown code checks for that. */
  datatype Supplier = Supplier(
    idFornecedor: string,
    nome: string,
    cidade: string,
    estado: string,
    enderecoLatitude: Option<string>,
    enderecoLongitude: Option<string>,
    servicos: Option<seq<Offering>>)

  /** A latitude/longitude pair, the `[lat, lng]` the script hands to the
      map. */
  datatype Point = Point(lat: Coord, lng: Coord)

  /** `parseFloat` of one coordinate field, `None` standing for `NaN`.
      `parse` is the number parser, left abstract; a `null` field reads
      as `NaN`, as `parseFloat(null)` does. */
  function ParseField(parse: string -> Option<Coord>, field: Option<string>): Option<Coord> {
    match field
    case None => None
    case Some(text) => parse(text)
  }

  /** The point of a supplier, or `None` when either coordinate is `NaN`:
      the test `isNaN(lat) || isNaN(lng)` both loops apply. */
  function Coordinates(parse: string -> Option<Coord>, f: Supplier): Option<Point> {
    match (ParseField(parse, f.enderecoLatitude), ParseField(parse, f.enderecoLongitude))
    case (Some(lat), Some(lng)) => Some(Point(lat, lng))
    case _ => None
  }

  /** Which rows of `data` have a point. */
  ghost function LocatedMask(parse: string -> Option<Coord>, data: seq<Supplier>): (keep: seq<bool>)
    ensures |keep| == |data|
  {
    seq(|data|, i requires 0 <= i < |data| => Coordinates(parse, data[i]).Some?)
  }

  lemma LocatedMaskPrefix(parse: string -> Option<Coord>, data: seq<Supplier>, n: nat)
    requires n <= |data|
    ensures LocatedMask(parse, data)[..n] == LocatedMask(parse, data[..n])
  {
  }
}
