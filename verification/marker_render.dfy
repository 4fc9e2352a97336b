/** The page's `renderMarkers`: it clears the marker layer and then adds,
    in array order, one marker per supplier that has a point, whose
    lower-cased name contains the lower-cased search text, and, when an
    exam is selected, that offers it. A marker's popup lists the offerings
    that passed the exam filter. An empty selection (the "all exams"
    entry, value `""`) means no exam filter. */
module MarkerRender {
  import opened Wrappers
  import opened Records
  import Text
  import Seqs
  import ServerFilter

  /** What a marker carries: its supplier, its point and the offerings its
      popup lists. */
  datatype Marker = Marker(supplier: Supplier, at: Point, shown: seq<Offering>)

  /** The supplier passes the point and name checks, after which the page
      reads its offering list. */
  predicate Reached(parse: string -> Option<Coord>, searchInput: string, f: Supplier) {
    Coordinates(parse, f).Some? && Text.Includes(Text.Lower(f.nome), Text.Lower(searchInput))
  }

  /** The page reads `f.servicos` unguarded for every supplier that passes
      the point and name checks; a `null` there throws and stops the
      render. This is the condition under which a render completes. */
  ghost predicate NoMissingServices(parse: string -> Option<Coord>, records: seq<Supplier>, searchInput: string) {
    forall i :: 0 <= i < |records| && Reached(parse, searchInput, records[i]) ==> records[i].servicos.Some?
  }

  /** `s => s.servico === selected` applied with `filter`. */
  function OfferingsNamed(offerings: seq<Offering>, selected: string): (r: seq<Offering>)
    ensures forall j :: 0 <= j < |r| ==> r[j].servico == selected
    ensures |r| > 0 <==> exists k :: 0 <= k < |offerings| && offerings[k].servico == selected
    decreases |offerings|
  {
    if |offerings| == 0 then []
    else
      var n := |offerings| - 1;
      var front := offerings[..n];
      assert forall k :: 0 <= k < n ==> front[k] == offerings[k];
      if offerings[n].servico == selected then OfferingsNamed(front, selected) + [offerings[n]]
      else OfferingsNamed(front, selected)
  }

  /** Which offerings carry the name `selected`. */
  ghost function NamedMask(offerings: seq<Offering>, selected: string): (keep: seq<bool>)
    ensures |keep| == |offerings|
  {
    seq(|offerings|, k requires 0 <= k < |offerings| => offerings[k].servico == selected)
  }

  /** The filtered list holds exactly the offerings named `selected`, in
      their original order. */
  lemma {:induction false} OfferingsNamedKeepsOrder(offerings: seq<Offering>, selected: string)
    ensures Seqs.PicksExactly(OfferingsNamed(offerings, selected), offerings, NamedMask(offerings, selected))
    decreases |offerings|
  {
    if |offerings| > 0 {
      var n := |offerings| - 1;
      var mask := NamedMask(offerings, selected);
      OfferingsNamedKeepsOrder(offerings[..n], selected);
      assert mask[..n] == NamedMask(offerings[..n], selected);
      Seqs.PicksExactlyStep(OfferingsNamed(offerings[..n], selected), if mask[n] then [offerings[n]] else [], offerings, mask);
    }
  }

  /** An offering is listed exactly when it is one of the supplier's
      offerings and carries the selected name. */
  lemma {:induction false} OfferingsNamedMembers(offerings: seq<Offering>, selected: string)
    ensures forall o :: o in OfferingsNamed(offerings, selected) <==> o in offerings && o.servico == selected
    decreases |offerings|
  {
    if |offerings| > 0 {
      var n := |offerings| - 1;
      OfferingsNamedMembers(offerings[..n], selected);
      assert offerings == offerings[..n] + [offerings[n]];
    }
  }

  /** The body of the `fornecedores.forEach` callback: no marker or one
      marker for supplier `f`. */
  function MarkerFor(parse: string -> Option<Coord>, f: Supplier, searchInput: string, selected: string): (ms: seq<Marker>)
    requires Reached(parse, searchInput, f) ==> f.servicos.Some?
    ensures |ms| <= 1
    ensures forall m :: m in ms ==> m.supplier == f
  {
    match Coordinates(parse, f)
    case None => []
    case Some(p) =>
      if !Text.Includes(Text.Lower(f.nome), Text.Lower(searchInput)) then []
      else if selected != "" then
        var shown := OfferingsNamed(f.servicos.value, selected);
        if |shown| == 0 then [] else [Marker(f, p, shown)]
      else [Marker(f, p, f.servicos.value)]
  }

  /** What every rendered marker satisfies: the supplier has a point and it
      is the marker's, its lower-cased name contains the lower-cased search
      text, and the popup lists all its offerings when no exam is selected,
      or else at least one offering and exactly those named after the
      selection, in their original order. */
  ghost predicate Admitted(parse: string -> Option<Coord>, searchInput: string, selected: string, m: Marker) {
    && Coordinates(parse, m.supplier) == Some(m.at)
    && Text.Includes(Text.Lower(m.supplier.nome), Text.Lower(searchInput))
    && m.supplier.servicos.Some?
    && (selected == "" ==> m.shown == m.supplier.servicos.value)
    && (selected != "" ==> |m.shown| > 0)
    && (selected != "" ==> Seqs.PicksExactly(m.shown, m.supplier.servicos.value, NamedMask(m.supplier.servicos.value, selected)))
    && (selected != "" ==> forall o :: o in m.shown <==> o in m.supplier.servicos.value && o.servico == selected)
  }

  /** One supplier yields a marker, its own, exactly when `Shows` accepts
      it. */
  lemma MarkerForShows(parse: string -> Option<Coord>, f: Supplier, searchInput: string, selected: string)
    requires Reached(parse, searchInput, f) ==> f.servicos.Some?
    ensures Suppliers(MarkerFor(parse, f, searchInput, selected)) == if Shows(parse, searchInput, selected, f) then [f] else []
  {
  }

  /** The marker a supplier yields satisfies `Admitted`. */
  lemma MarkerForAdmitted(parse: string -> Option<Coord>, f: Supplier, searchInput: string, selected: string)
    requires Reached(parse, searchInput, f) ==> f.servicos.Some?
    ensures forall m :: m in MarkerFor(parse, f, searchInput, selected) ==> Admitted(parse, searchInput, selected, m)
  {
    if f.servicos.Some? {
      OfferingsNamedMembers(f.servicos.value, selected);
      OfferingsNamedKeepsOrder(f.servicos.value, selected);
    }
  }

  /** The supplier of each marker, in marker order. */
  function Suppliers(markers: seq<Marker>): (owners: seq<Supplier>)
    ensures |owners| == |markers|
  {
    seq(|markers|, j requires 0 <= j < |markers| => markers[j].supplier)
  }

  /** The markers one render adds, in the order it adds them. */
  function Render(parse: string -> Option<Coord>, records: seq<Supplier>, searchInput: string, selected: string): (markers: seq<Marker>)
    requires NoMissingServices(parse, records, searchInput)
    ensures |markers| <= |records|
    decreases |records|
  {
    if |records| == 0 then []
    else
      var n := |records| - 1;
      var front := records[..n];
      assert forall i :: 0 <= i < n ==> front[i] == records[i];
      Render(parse, front, searchInput, selected) + MarkerFor(parse, records[n], searchInput, selected)
  }

  /** Every rendered marker belongs to one of the suppliers and satisfies
      `Admitted`. */
  lemma {:induction false} RenderAdmitsOnly(parse: string -> Option<Coord>, records: seq<Supplier>, searchInput: string, selected: string)
    requires NoMissingServices(parse, records, searchInput)
    ensures forall m :: m in Render(parse, records, searchInput, selected) ==>
              m.supplier in records && Admitted(parse, searchInput, selected, m)
    decreases |records|
  {
    if |records| > 0 {
      var n := |records| - 1;
      var front := records[..n];
      RenderStep(parse, records, searchInput, selected);
      RenderAdmitsOnly(parse, front, searchInput, selected);
      MarkerForAdmitted(parse, records[n], searchInput, selected);
    }
  }

  /** The reference rule for whether a supplier gets a marker, stated
      without the filter function: point, name, and when an exam is
      selected an offering with exactly that name. */
  ghost predicate Shows(parse: string -> Option<Coord>, searchInput: string, selected: string, f: Supplier) {
    && Reached(parse, searchInput, f)
    && f.servicos.Some?
    && (selected != "" ==> exists k :: 0 <= k < |f.servicos.value| && f.servicos.value[k].servico == selected)
  }

  ghost function ShowMask(parse: string -> Option<Coord>, records: seq<Supplier>, searchInput: string, selected: string): (keep: seq<bool>)
    ensures |keep| == |records|
  {
    seq(|records|, i requires 0 <= i < |records| => Shows(parse, searchInput, selected, records[i]))
  }

  /** The rendered suppliers are exactly those `Shows` accepts, in array
      order: the j-th marker belongs to the j-th accepted supplier. */
  lemma {:induction false} RenderKeepsShown(parse: string -> Option<Coord>, records: seq<Supplier>, searchInput: string, selected: string)
    requires NoMissingServices(parse, records, searchInput)
    ensures Seqs.PicksExactly(Suppliers(Render(parse, records, searchInput, selected)), records, ShowMask(parse, records, searchInput, selected))
    decreases |records|
  {
    if |records| > 0 {
      var n := |records| - 1;
      var front := records[..n];
      var f := records[n];
      RenderStep(parse, records, searchInput, selected);
      RenderKeepsShown(parse, front, searchInput, selected);
      var ms', last := Render(parse, front, searchInput, selected), MarkerFor(parse, f, searchInput, selected);
      SuppliersAppend(ms', last);
      MarkerForShows(parse, f, searchInput, selected);
      ShowMaskPrefix(parse, records, searchInput, selected);
      var mask := ShowMask(parse, records, searchInput, selected);
      assert mask[n] == Shows(parse, searchInput, selected, f);
      Seqs.PicksExactlyStep(Suppliers(ms'), Suppliers(last), records, mask);
    }
  }

  lemma NoMissingServicesPrefix(parse: string -> Option<Coord>, records: seq<Supplier>, searchInput: string, n: nat)
    requires n <= |records|
    requires NoMissingServices(parse, records, searchInput)
    ensures NoMissingServices(parse, records[..n], searchInput)
  {
    assert forall i :: 0 <= i < n ==> records[..n][i] == records[i];
  }

  /** A render over one more supplier adds that supplier's markers. */
  lemma RenderStep(parse: string -> Option<Coord>, records: seq<Supplier>, searchInput: string, selected: string)
    requires |records| > 0
    requires NoMissingServices(parse, records, searchInput)
    ensures NoMissingServices(parse, records[..|records| - 1], searchInput)
    ensures Render(parse, records, searchInput, selected)
         == Render(parse, records[..|records| - 1], searchInput, selected) + MarkerFor(parse, records[|records| - 1], searchInput, selected)
  {
    var n := |records| - 1;
    assert forall i :: 0 <= i < n ==> records[..n][i] == records[i];
  }

  lemma SuppliersAppend(a: seq<Marker>, b: seq<Marker>)
    ensures Suppliers(a + b) == Suppliers(a) + Suppliers(b)
  {
  }

  lemma ShowMaskPrefix(parse: string -> Option<Coord>, records: seq<Supplier>, searchInput: string, selected: string)
    requires |records| > 0
    ensures ShowMask(parse, records, searchInput, selected)[..|records| - 1] == ShowMask(parse, records[..|records| - 1], searchInput, selected)
  {
  }

  /** With an empty search box and no exam selected, a supplier is shown
      exactly when it has a point. */
  lemma EmptySearchShowsLocated(parse: string -> Option<Coord>, records: seq<Supplier>)
    requires NoMissingServices(parse, records, "")
    ensures ShowMask(parse, records, "", "") == LocatedMask(parse, records)
  {
    assert Text.Lower("") == "";
    forall i | 0 <= i < |records|
      ensures Shows(parse, "", "", records[i]) == Coordinates(parse, records[i]).Some?
    {
      Text.IncludesEmpty(Text.Lower(records[i].nome));
    }
  }

  /** A marker stands at the given point and lists all its supplier's
      offerings. */
  ghost function AtWithAllOfferings(): (Marker, Point) -> bool {
    (m: Marker, p: Point) => m.at == p && m.supplier.servicos == Some(m.shown)
  }

  /** With an empty search box and no exam selected, the page shows a
      marker for exactly the rows the generator kept in `boundsArray`, at
      the same points and in the same order, each listing all its
      offerings. */
  lemma {:induction false} UnfilteredRenderMatchesBounds(parse: string -> Option<Coord>, records: seq<Supplier>)
    requires NoMissingServices(parse, records, "")
    ensures Seqs.Pairwise(Render(parse, records, "", ""), ServerFilter.Bounds(parse, records), AtWithAllOfferings())
    decreases |records|
  {
    if |records| > 0 {
      var n := |records| - 1;
      var f := records[n];
      RenderStep(parse, records, "", "");
      ServerFilter.BoundsStep(parse, records);
      UnfilteredRenderMatchesBounds(parse, records[..n]);
      UnfilteredMarker(parse, f);
      var c := Coordinates(parse, f);
      Seqs.PairwiseAppend(Render(parse, records[..n], "", ""), ServerFilter.Bounds(parse, records[..n]),
                          MarkerFor(parse, f, "", ""), if c.Some? then [c.value] else [], AtWithAllOfferings());
    }
  }

  /** With an empty search box and no exam selected, a supplier with a
      point yields one marker listing all its offerings, and one without
      yields none. */
  lemma UnfilteredMarker(parse: string -> Option<Coord>, f: Supplier)
    requires Reached(parse, "", f) ==> f.servicos.Some?
    ensures Coordinates(parse, f).None? ==> MarkerFor(parse, f, "", "") == []
    ensures Coordinates(parse, f).Some? ==>
              f.servicos.Some? && MarkerFor(parse, f, "", "") == [Marker(f, Coordinates(parse, f).value, f.servicos.value)]
  {
    assert Text.Lower("") == "";
    Text.IncludesEmpty(Text.Lower(f.nome));
  }

  /** The search is case-insensitive: two search texts with the same
      lower-case form render the same markers. */
  lemma {:induction false} SearchIgnoresCase(parse: string -> Option<Coord>, records: seq<Supplier>, q1: string, q2: string, selected: string)
    requires Text.Lower(q1) == Text.Lower(q2)
    requires NoMissingServices(parse, records, q1)
    ensures NoMissingServices(parse, records, q2)
    ensures Render(parse, records, q1, selected) == Render(parse, records, q2, selected)
    decreases |records|
  {
    if |records| > 0 {
      var n := |records| - 1;
      var front := records[..n];
      assert NoMissingServices(parse, records, q2);
      RenderStep(parse, records, q1, selected);
      RenderStep(parse, records, q2, selected);
      SearchIgnoresCase(parse, front, q1, q2, selected);
      assert MarkerFor(parse, records[n], q1, selected) == MarkerFor(parse, records[n], q2, selected);
    }
  }

  /** `renderMarkers()`: whatever the layer held before, it is cleared and
      then holds exactly the markers of `Render` for the current inputs, so
      no render remembers an earlier one. */
  method RenderMarkers(layer: seq<Marker>, parse: string -> Option<Coord>, records: seq<Supplier>, searchInput: string, selected: string)
    returns (layer': seq<Marker>)
    requires NoMissingServices(parse, records, searchInput)
    ensures layer' == Render(parse, records, searchInput, selected)
  {
    layer' := [];
    NoMissingServicesPrefix(parse, records, searchInput, 0);
    var searchText := Text.Lower(searchInput);
    var i := 0;
    while i < |records|
      invariant 0 <= i <= |records|
      invariant NoMissingServices(parse, records[..i], searchInput)
      invariant layer' == Render(parse, records[..i], searchInput, selected)
    {
      var f := records[i];
      NoMissingServicesPrefix(parse, records, searchInput, i + 1);
      RenderStep(parse, records[..i + 1], searchInput, selected);
      assert records[..i + 1][..i] == records[..i] && records[..i + 1][i] == f;
      i := i + 1;
      match Coordinates(parse, f)
      case None =>
      case Some(p) =>
        if Text.Includes(Text.Lower(f.nome), searchText) {
          var shown := f.servicos.value;
          if selected != "" {
            shown := OfferingsNamed(f.servicos.value, selected);
          }
          if selected == "" || |shown| > 0 {
            layer' := layer' + [Marker(f, p, shown)];
          }
        }
    }
    assert records[..i] == records;
  }
}
