/** The page-local state of the census map and the handlers that change
    it: initMap, displayMarkers, showErrorMessage, applyFilters and
    resetFilters. */
module MapView {
  import opened Wrappers
  import opened JsText
  import opened Markers
  import opened MarkerFilter
  import opened Render

  /** The map viewport: the initial centre and zoom, or fitted around the
      plotted points with a padding in pixels and a largest zoom. */
  datatype View =
    | Unset
    | Centered(lat: real, lng: real, zoom: nat)
    | Fitted(points: seq<(Coord, Coord)>, padding: nat, maxZoom: nat)

  const DefaultView := Centered(4.5709, -74.2973, 13)
  const FitPadding: nat := 50
  const FitMaxZoom: nat := 16

  const NoResultsText := "No se encontraron resultados para los filtros aplicados."
  const FilterErrorText := "Error al aplicar los filtros. Por favor, inténtalo de nuevo."

  /** The view after displayMarkers(xs): fitted around the plotted points
      when there is at least one, otherwise as it was. */
  function ViewAfter(xs: seq<Marker>, before: View): View
  {
    if ValidCount(xs) > 0 then Fitted(Bounds(xs), FitPadding, FitMaxZoom) else before
  }

  /** Each filter control resetFilters finds on the page is emptied. */
  function Cleared(controls: Controls): (r: Controls)
    ensures r.Keys == controls.Keys
    ensures forall k :: k in r ==> r[k] == []
  {
    map k | k in controls :: []
  }

  class MapView {
    /** mapMarkers: every record loaded with the page; never changed. */
    const allMarkers: seq<Marker>
    /** Whether the page has the #censo-map element. */
    const hasMapElement: bool

    /** markersLayer has been created (initMap got past its checks). */
    var layerReady: bool
    /** The circle markers on markersLayer. */
    var layer: seq<Plotted>
    /** The text of #censo-counter. */
    var counter: nat
    var view: View
    /** The alert currently shown above the map: at most one. */
    var alert: Option<string>
    /** The values of the filter controls on the page, by element id. */
    var controls: Controls

    constructor (markers: seq<Marker>, hasMap: bool, inputs: Controls)
      ensures allMarkers == markers && hasMapElement == hasMap && controls == inputs
      ensures !layerReady && layer == [] && counter == 0 && view == Unset && alert == None
    {
      allMarkers := markers;
      hasMapElement := hasMap;
      controls := inputs;
      layerReady := false;
      layer := [];
      counter := 0;
      view := Unset;
      alert := None;
    }

    /** initMap: without the map element nothing happens; otherwise the
        view is centred on the default, an empty layer is created and the
        loaded markers are displayed (or the counter set to 0). */
    method InitMap()
      modifies this
      ensures !hasMapElement ==> layerReady == old(layerReady) && layer == old(layer) &&
                                 counter == old(counter) && view == old(view)
      ensures hasMapElement ==> layerReady && layer == PlotAll(allMarkers) &&
                                counter == |allMarkers| && view == ViewAfter(allMarkers, DefaultView)
      ensures alert == old(alert) && controls == old(controls)
    {
      if !hasMapElement {
        return;
      }
      view := DefaultView;
      layer := [];
      layerReady := true;
      if |allMarkers| > 0 {
        DisplayMarkers(allMarkers);
      } else {
        counter := 0;
      }
    }

    /** displayMarkers(xs): the layer is cleared and refilled with the
        records whose coordinates parse, the counter shows |xs| (plotted or
        not), and the view is fitted only when something was plotted. */
    method DisplayMarkers(xs: seq<Marker>)
      modifies this`layer, this`counter, this`view
      ensures !layerReady ==> layer == old(layer) && counter == old(counter) && view == old(view)
      ensures layerReady ==> layer == PlotAll(xs) && counter == |xs| && view == ViewAfter(xs, old(view))
    {
      if !layerReady {
        return;
      }
      layer := [];
      counter := |xs|;
      var bounds: seq<(Coord, Coord)> := [];
      var validMarkersCount := 0;
      var i := 0;
      while i < |xs|
        invariant 0 <= i <= |xs|
        invariant layer == PlotAll(xs[..i])
        invariant bounds == Bounds(xs[..i])
        invariant validMarkersCount == ValidCount(xs[..i])
        invariant counter == |xs| && view == old(view)
      {
        var m := xs[i];
        assert xs[..i + 1][..i] == xs[..i];
        if Plottable(m) {
          validMarkersCount := validMarkersCount + 1;
          layer := layer + [PlotOne(m)];
          bounds := bounds + [(m.lat, m.lng)];
        }
        i := i + 1;
      }
      assert xs[..i] == xs;
      if validMarkersCount > 0 {
        view := Fitted(bounds, FitPadding, FitMaxZoom);
      }
    }

    /** showErrorMessage(message): the previous alert is removed; the new
        one is shown only when the map element exists to anchor it. The
        5-second auto-dismiss is not modelled. */
    method ShowErrorMessage(message: string)
      modifies this`alert
      ensures alert == if hasMapElement then Some(message) else None
      ensures layer == old(layer) && counter == old(counter) && view == old(view) && controls == old(controls)
    {
      alert := if hasMapElement then Some(message) else None;
    }

    /** applyFilters: a missing control aborts with the filter error alert
        and leaves the layer as it was; otherwise the filtered list is
        displayed, with the "no results" alert when it is empty. */
    method ApplyFilters()
      modifies this`layer, this`counter, this`view, this`alert
      ensures ReadCriteria(old(controls)).Failure? ==>
        layer == old(layer) && counter == old(counter) && view == old(view) &&
        alert == (if hasMapElement then Some(FilterErrorText) else None)
      ensures ReadCriteria(old(controls)).Success? ==>
        var shown := Filter(allMarkers, ReadCriteria(old(controls)).value);
        Displayed(shown, old(layer), old(counter), old(view)) &&
        alert == if shown == [] then (if hasMapElement then Some(NoResultsText) else None) else old(alert)
    {
      var criteria := ReadCriteria(controls);
      if criteria.Failure? {
        ShowErrorMessage(FilterErrorText);
        return;
      }
      var filteredMarkers := Filter(allMarkers, criteria.value);
      DisplayFiltered(filteredMarkers);
    }

    /** The state displayMarkers(xs) leaves, given the layer, counter and
        view before the call. */
    ghost predicate Displayed(xs: seq<Marker>, layer0: seq<Plotted>, counter0: nat, view0: View)
      reads this
    {
      if layerReady then layer == PlotAll(xs) && counter == |xs| && view == ViewAfter(xs, view0)
      else layer == layer0 && counter == counter0 && view == view0
    }

    /** The end of applyFilters: the "no results" alert for an empty list,
        then displayMarkers. */
    method DisplayFiltered(filteredMarkers: seq<Marker>)
      modifies this`layer, this`counter, this`view, this`alert
      ensures Displayed(filteredMarkers, old(layer), old(counter), old(view))
      ensures alert == if filteredMarkers == [] then (if hasMapElement then Some(NoResultsText) else None)
                       else old(alert)
    {
      if |filteredMarkers| == 0 {
        ShowErrorMessage(NoResultsText);
      }
      DisplayMarkers(filteredMarkers);
    }

    /** resetFilters: every filter control on the page is emptied, the
        alert is removed, and the full list is displayed again when it is
        not empty. */
    method ResetFilters()
      modifies this`controls, this`alert, this`layer, this`counter, this`view
      ensures controls == Cleared(old(controls))
      ensures alert == None
      ensures |allMarkers| > 0 && layerReady ==>
        layer == PlotAll(allMarkers) && counter == |allMarkers| && view == ViewAfter(allMarkers, old(view))
      ensures |allMarkers| == 0 || !layerReady ==>
        layer == old(layer) && counter == old(counter) && view == old(view)
    {
      var i := 0;
      while i < |FilterIds|
        invariant 0 <= i <= |FilterIds|
        invariant layer == old(layer) && counter == old(counter) && view == old(view)
        invariant controls.Keys == old(controls).Keys
        invariant forall k :: k in controls ==>
          controls[k] == if k in FilterIds[..i] then [] else old(controls)[k]
      {
        var filterId := FilterIds[i];
        if filterId in controls {
          controls := controls[filterId := []];
        }
        assert FilterIds[..i + 1] == FilterIds[..i] + [filterId];
        i := i + 1;
      }
      assert FilterIds[..i] == FilterIds;
      forall k | k in controls ensures controls[k] == Cleared(old(controls))[k] {
        assert k in FilterIds by { ControlListed(k); }
      }
      alert := None;
      if |allMarkers| > 0 {
        DisplayMarkers(allMarkers);
      }
    }
  }

  lemma ControlListed(k: FilterControl)
    ensures k in FilterIds
  {
    match k
    case LocationFilter => assert FilterIds[0] == k;
    case BuildingTypeFilter => assert FilterIds[1] == k;
    case AddressFilter => assert FilterIds[2] == k;
    case TitleFilter => assert FilterIds[3] == k;
    case StatusFilter => assert FilterIds[4] == k;
  }

  /** After resetFilters, applying the filters shows the full list: the
      emptied controls read as no criteria at all. */
  lemma ClearedReadsNoCriteria(controls: Controls, markers: seq<Marker>)
    requires HasRequiredControls(controls)
    ensures ReadCriteria(Cleared(controls)) == Success(NoCriteria)
    ensures Filter(markers, ReadCriteria(Cleared(controls)).value) == markers
  {
    var c := Cleared(controls);
    assert forall k :: k in c ==> AllWhitespace(c[k]);
    BlankControlsReadAsNoCriteria(c);
    FilterNoCriteria(markers);
  }
}
