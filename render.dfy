/** What displayMarkers puts on the marker layer: one circle marker per
    record whose coordinates parse, styled by status, with an escaped
    popup. */
module Render {
  import opened Wrappers
  import opened JsScalar
  import opened HtmlEscape
  import opened Markers

  /** The status code drawn in the "rejected" colours. */
  const RejectedStatusCode := "12"

  /** Fill and stroke colour of a circle marker. */
  datatype Style = Style(fillColor: string, color: string)

  const RejectedStyle := Style("#e74c3c", "#c0392b")
  const DefaultStyle := Style("#3498db", "#2980b9")

  /** isNaN(lat) || isNaN(lng) skips the record; only NaN is rejected, so an
      infinite coordinate is plotted. */
  predicate Plottable(m: Marker)
  {
    !m.lat.NaN? && !m.lng.NaN?
  }

  /** String(status_id) === "12". */
  predicate IsRejected(m: Marker)
  {
    ToStr(m.statusId) == RejectedStatusCode
  }

  /** The rejected test holds exactly for code 12, sent as a number or as a
      string. */
  lemma RejectedIff(m: Marker)
    ensures IsRejected(m) <==> m.statusId == Num(12) || m.statusId == Text("12")
  {
    assert NatToDecimal(12) == "12" by {
      assert NatToDecimal(1) == "1";
    }
    ToStrIsDecimal(m.statusId, 12);
  }

  function StyleOf(m: Marker): Style
  {
    if IsRejected(m) then RejectedStyle else DefaultStyle
  }

  /** A popup line: the field, or the placeholder when it is falsy,
      escaped. */
  function PopupText(field: Option<string>, placeholder: string): (r: string)
    ensures IsEscaped(r)
    ensures Unescape(r) == if Present(field) then field.value else placeholder
  {
    var shown := if Present(field) then field.value else placeholder;
    EscapeHtmlIsEscaped(shown);
    UnescapeEscapeHtml(shown);
    EscapeHtml(shown)
  }

  /** The texts interpolated into a popup: the record number (not escaped),
      then locality, address, building type and status (escaped). */
  datatype Popup = Popup(id: string, location: string, address: string, buildingType: string, status: string)

  function PopupOf(m: Marker): Popup
  {
    Popup(ToStr(m.id),
          PopupText(m.location, "No especificada"),
          PopupText(m.address, "No especificada"),
          PopupText(m.buildingType, "No especificado"),
          PopupText(m.status, "No especificado"))
  }

  /** The string form of null or of a number holds no markup. */
  lemma ScalarTextNoMarkup(v: Scalar)
    ensures !v.Text? ==> NoRawMarkup(ToStr(v))
  {
  }

  /** Every popup text is free of raw markup except the record number,
      which is interpolated unescaped and is safe only when it is a number
      or null. */
  lemma PopupSafe(m: Marker)
    ensures NoRawMarkup(PopupOf(m).location) && NoRawMarkup(PopupOf(m).address)
    ensures NoRawMarkup(PopupOf(m).buildingType) && NoRawMarkup(PopupOf(m).status)
    ensures !m.id.Text? ==> NoRawMarkup(PopupOf(m).id)
  {
    ScalarTextNoMarkup(m.id);
    assert PopupOf(m).id == ToStr(m.id);
  }

  /** A circle marker on the layer; its popup is PopupOf(marker). */
  datatype Plotted = Plotted(marker: Marker, style: Style)

  function PlotOne(m: Marker): Plotted
  {
    Plotted(m, StyleOf(m))
  }

  /** The layer after the forEach over xs, built element by element. */
  function PlotAll(xs: seq<Marker>): seq<Plotted>
  {
    if xs == [] then []
    else
      var last := xs[|xs| - 1];
      PlotAll(xs[..|xs| - 1]) + (if Plottable(last) then [PlotOne(last)] else [])
  }

  /** validMarkersCount after the forEach over xs. */
  function ValidCount(xs: seq<Marker>): (n: nat)
    ensures n <= |xs|
  {
    if xs == [] then 0
    else ValidCount(xs[..|xs| - 1]) + (if Plottable(xs[|xs| - 1]) then 1 else 0)
  }

  /** The points bounds.extend receives, in order. */
  function Bounds(xs: seq<Marker>): seq<(Coord, Coord)>
  {
    if xs == [] then []
    else
      var last := xs[|xs| - 1];
      Bounds(xs[..|xs| - 1]) + (if Plottable(last) then [(last.lat, last.lng)] else [])
  }

  /** The layer holds exactly the plottable records, in input order, each
      drawn in the rejected colours exactly when its code is 12; their number
      is the valid count, at most the input length. */
  lemma {:induction false} PlotAllSpec(xs: seq<Marker>)
    ensures |PlotAll(xs)| == ValidCount(xs) == |Bounds(xs)|
    ensures forall i :: 0 <= i < |PlotAll(xs)| ==>
      PlotAll(xs)[i].marker in xs && Plottable(PlotAll(xs)[i].marker) &&
      PlotAll(xs)[i] == PlotOne(PlotAll(xs)[i].marker)
    ensures forall m :: m in xs && Plottable(m) ==> PlotOne(m) in PlotAll(xs)
  {
    if xs != [] {
      var init := xs[..|xs| - 1];
      PlotAllSpec(init);
      assert forall m :: m in init ==> m in xs;
      assert forall m :: m in xs ==> m in init || m == xs[|xs| - 1];
    }
  }

  /** The layer of a concatenation is the two layers one after the other:
      markers are added in input order, one per plottable occurrence. */
  lemma {:induction false} PlotAllAppend(xs: seq<Marker>, ys: seq<Marker>)
    ensures PlotAll(xs + ys) == PlotAll(xs) + PlotAll(ys)
    decreases |ys|
  {
    if ys == [] {
      assert xs + ys == xs;
    } else {
      assert (xs + ys)[..|xs + ys| - 1] == xs + ys[..|ys| - 1];
      PlotAllAppend(xs, ys[..|ys| - 1]);
    }
  }

  /** A plotted marker wears the rejected colours exactly when its status
      code is 12. */
  lemma PlottedStyle(xs: seq<Marker>, i: nat)
    requires i < |PlotAll(xs)|
    ensures PlotAll(xs)[i].style == RejectedStyle <==>
            PlotAll(xs)[i].marker.statusId in {Num(12), Text("12")}
  {
    PlotAllSpec(xs);
    RejectedIff(PlotAll(xs)[i].marker);
  }

  /** Every plotted marker's coordinates reach the bounds, in order. */
  lemma {:induction false} BoundsArePlotted(xs: seq<Marker>, i: nat)
    requires i < |PlotAll(xs)|
    ensures |Bounds(xs)| == |PlotAll(xs)|
    ensures Bounds(xs)[i] == (PlotAll(xs)[i].marker.lat, PlotAll(xs)[i].marker.lng)
  {
    var init := xs[..|xs| - 1];
    PlotAllSpec(xs);
    PlotAllSpec(init);
    if i < |PlotAll(init)| {
      BoundsArePlotted(init, i);
    }
  }

  /** When every record parses, the layer has one marker per record. */
  lemma {:induction false} AllPlottable(xs: seq<Marker>)
    requires forall i :: 0 <= i < |xs| ==> Plottable(xs[i])
    ensures ValidCount(xs) == |xs|
  {
    if xs != [] {
      AllPlottable(xs[..|xs| - 1]);
    }
  }
}
