/** window.applyFilters: the five filter controls are read, trimmed (the
    address also lower-cased), and the loaded marker list is narrowed with
    Array.filter to the records that satisfy all five per-field tests. */
module MarkerFilter {
  import opened Wrappers
  import opened JsText
  import opened JsScalar
  import opened Markers

  /** The five filter controls, by element id: location-filter,
      building-type-filter, address-filter, title-filter, status-filter. */
  datatype FilterControl = LocationFilter | BuildingTypeFilter | AddressFilter | TitleFilter | StatusFilter

  /** The controls resetFilters clears, in its order. */
  const FilterIds: seq<FilterControl> :=
    [LocationFilter, BuildingTypeFilter, AddressFilter, TitleFilter, StatusFilter]

  /** The value of each filter control present on the page. */
  type Controls = map<FilterControl, string>

  /** The filter values as used by the predicate; "" means "no filter". */
  datatype Criteria = Criteria(
    location: string,
    buildingType: string,
    address: string,
    census: string,
    status: string)

  const NoCriteria := Criteria("", "", "", "", "")

  /** Reading a control that is not on the page throws (getElementById gives
      null); the exception carries the id that was missing. */
  datatype ReadError = MissingControl(id: FilterControl)

  /** The criteria applyFilters reads: each value trimmed, the address also
      lower-cased. The first four controls must exist; a missing status
      control (read with ?.) means no status filter. */
  function ReadCriteria(controls: Controls): (r: Result<Criteria, ReadError>)
    ensures r.Success? <==> HasRequiredControls(controls)
    ensures r.Failure? ==> r.error.id != StatusFilter && r.error.id !in controls
  {
    if LocationFilter !in controls then Failure(MissingControl(LocationFilter))
    else if BuildingTypeFilter !in controls then Failure(MissingControl(BuildingTypeFilter))
    else if AddressFilter !in controls then Failure(MissingControl(AddressFilter))
    else if TitleFilter !in controls then Failure(MissingControl(TitleFilter))
    else
      Success(Criteria(
        Trim(controls[LocationFilter]),
        Trim(controls[BuildingTypeFilter]),
        Lower(Trim(controls[AddressFilter])),
        Trim(controls[TitleFilter]),
        if StatusFilter in controls then Trim(controls[StatusFilter]) else []))
  }

  /** Each criterion is its control's value with the surrounding whitespace
      removed and nothing else changed, except the address, which is also
      lower-cased; without a status control there is no status filter. */
  lemma ReadCriteriaNormalized(controls: Controls)
    requires HasRequiredControls(controls)
    ensures var c := ReadCriteria(controls).value;
      Trimmed(c.location) && (exists i :: TrimmedAt(controls[LocationFilter], c.location, i)) &&
      Trimmed(c.buildingType) && (exists i :: TrimmedAt(controls[BuildingTypeFilter], c.buildingType, i)) &&
      Trimmed(c.census) && (exists i :: TrimmedAt(controls[TitleFilter], c.census, i)) &&
      (exists t, i :: TrimmedAt(controls[AddressFilter], t, i) && Trimmed(t) && c.address == Lower(t)) &&
      Lower(c.address) == c.address &&
      (StatusFilter in controls ==>
        Trimmed(c.status) && exists i :: TrimmedAt(controls[StatusFilter], c.status, i)) &&
      (StatusFilter !in controls ==> c.status == [])
  {
    var c := ReadCriteria(controls).value;
    assert c.location == Trim(controls[LocationFilter]);
    assert c.buildingType == Trim(controls[BuildingTypeFilter]);
    assert c.census == Trim(controls[TitleFilter]);
    assert c.address == Lower(Trim(controls[AddressFilter]));
    TrimSpec(controls[LocationFilter]);
    TrimSpec(controls[BuildingTypeFilter]);
    TrimSpec(controls[TitleFilter]);
    TrimSpec(controls[AddressFilter]);
    if StatusFilter in controls {
      assert c.status == Trim(controls[StatusFilter]);
      TrimSpec(controls[StatusFilter]);
    }
    LowerIdempotent(Trim(controls[AddressFilter]));
  }

  /** The four controls applyFilters reads without ?. are on the page. */
  predicate HasRequiredControls(controls: Controls)
  {
    LocationFilter in controls && BuildingTypeFilter in controls &&
    AddressFilter in controls && TitleFilter in controls
  }

  /** Locality and building type: the field is present and equal. */
  predicate ExactMatch(field: Option<string>, f: string)
  {
    f == [] || (Present(field) && field.value == f)
  }

  /** Address: the lower-cased field contains the (lower-cased) filter. */
  predicate AddressMatch(field: Option<string>, f: string)
  {
    f == [] || (Present(field) && Contains(Lower(field.value), f))
  }

  /** Record number and status code: the value is truthy and its string
      form equals the filter. */
  predicate ScalarMatch(v: Scalar, f: string)
  {
    f == [] || (Truthy(v) && ToStr(v) == f)
  }

  /** The predicate passed to Array.filter. */
  predicate Keep(m: Marker, c: Criteria)
  {
    ExactMatch(m.location, c.location) &&
    ExactMatch(m.buildingType, c.buildingType) &&
    AddressMatch(m.address, c.address) &&
    ScalarMatch(m.id, c.census) &&
    ScalarMatch(m.statusId, c.status)
  }

  /** mapMarkers.filter(Keep): the records that satisfy the predicate, in
      their original order. */
  function Filter(ms: seq<Marker>, c: Criteria): (r: seq<Marker>)
    ensures |r| <= |ms|
    ensures forall i :: 0 <= i < |r| ==> Keep(r[i], c)
    ensures forall m :: m in r <==> m in ms && Keep(m, c)
  {
    if ms == [] then []
    else
      var rest := Filter(ms[1..], c);
      assert ms == [ms[0]] + ms[1..];
      if Keep(ms[0], c) then [ms[0]] + rest else rest
  }

  /** Filtering distributes over concatenation: every occurrence of a kept
      record stays, in place, as Array.filter keeps it. */
  lemma {:induction false} FilterAppend(ms: seq<Marker>, ns: seq<Marker>, c: Criteria)
    ensures Filter(ms + ns, c) == Filter(ms, c) + Filter(ns, c)
  {
    if ms == [] {
      assert ms + ns == ns;
    } else {
      assert (ms + ns)[1..] == ms[1..] + ns;
      FilterAppend(ms[1..], ns, c);
    }
  }

  /** xs is ys with some elements removed, the rest kept in order. */
  predicate IsSubsequence<T(==)>(xs: seq<T>, ys: seq<T>)
    decreases |ys|
  {
    if xs == [] then true
    else if ys == [] then false
    else if xs[0] == ys[0] then IsSubsequence(xs[1..], ys[1..])
    else IsSubsequence(xs, ys[1..])
  }

  /** The filtered list is an order-preserving subsequence of the full one. */
  lemma {:induction false} FilterIsSubsequence(ms: seq<Marker>, c: Criteria)
    ensures IsSubsequence(Filter(ms, c), ms)
  {
    if ms != [] {
      FilterIsSubsequence(ms[1..], c);
      var rest := Filter(ms[1..], c);
      if !Keep(ms[0], c) {
        SubsequenceSkip(rest, ms);
      }
    }
  }

  lemma {:induction false} SubsequenceSkip<T>(xs: seq<T>, ys: seq<T>)
    requires ys != [] && IsSubsequence(xs, ys[1..])
    ensures IsSubsequence(xs, ys)
    decreases |ys|, 0
  {
    if xs != [] && xs[0] == ys[0] {
      // xs[0] also occurs later; match it here and skip ahead
      SubsequenceDropHead(xs, ys[1..]);
    }
  }

  lemma {:induction false} SubsequenceDropHead<T>(xs: seq<T>, ys: seq<T>)
    requires xs != [] && IsSubsequence(xs, ys)
    ensures IsSubsequence(xs[1..], ys)
    decreases |ys|, 1
  {
    if ys != [] {
      if xs[0] == ys[0] {
        SubsequenceSkip(xs[1..], ys);
      } else {
        SubsequenceDropHead(xs, ys[1..]);
        SubsequenceSkip(xs[1..], ys);
      }
    }
  }

  /** With every criterion empty, nothing is filtered out. */
  lemma {:induction false} FilterNoCriteria(ms: seq<Marker>)
    ensures Filter(ms, NoCriteria) == ms
  {
    if ms != [] {
      FilterNoCriteria(ms[1..]);
      assert ms == [ms[0]] + ms[1..];
    }
  }

  /** Controls that are all blank (or hold only whitespace) read as no
      criteria. */
  lemma BlankControlsReadAsNoCriteria(controls: Controls)
    requires forall k :: k in controls ==> AllWhitespace(controls[k])
    requires HasRequiredControls(controls)
    ensures ReadCriteria(controls) == Success(NoCriteria)
  {
    TrimEmptyIff(controls[LocationFilter]);
    TrimEmptyIff(controls[BuildingTypeFilter]);
    TrimEmptyIff(controls[AddressFilter]);
    TrimEmptyIff(controls[TitleFilter]);
    if StatusFilter in controls {
      TrimEmptyIff(controls[StatusFilter]);
    }
  }

  /** A record whose field is null, undefined or empty is never kept by a
      non-empty filter on that field. */
  lemma AbsentFieldNeverKept(m: Marker, c: Criteria)
    ensures c.location != [] && !Present(m.location) ==> !Keep(m, c)
    ensures c.buildingType != [] && !Present(m.buildingType) ==> !Keep(m, c)
    ensures c.address != [] && !Present(m.address) ==> !Keep(m, c)
    ensures c.census != [] && !Truthy(m.id) ==> !Keep(m, c)
    ensures c.status != [] && !Truthy(m.statusId) ==> !Keep(m, c)
  {
  }

  /** Two sets of criteria that do not set the same field to different
      values. */
  predicate Compatible(a: Criteria, b: Criteria)
  {
    (a.location == [] || b.location == [] || a.location == b.location) &&
    (a.buildingType == [] || b.buildingType == [] || a.buildingType == b.buildingType) &&
    (a.address == [] || b.address == [] || a.address == b.address) &&
    (a.census == [] || b.census == [] || a.census == b.census) &&
    (a.status == [] || b.status == [] || a.status == b.status)
  }

  function Pick(x: string, y: string): string
  {
    if x == [] then y else x
  }

  /** The criteria that set every field either a or b sets. */
  function Combine(a: Criteria, b: Criteria): Criteria
  {
    Criteria(Pick(a.location, b.location), Pick(a.buildingType, b.buildingType),
             Pick(a.address, b.address), Pick(a.census, b.census), Pick(a.status, b.status))
  }

  /** The predicate is a conjunction: combined criteria keep a record
      exactly when each part keeps it. */
  lemma KeepCombine(m: Marker, a: Criteria, b: Criteria)
    requires Compatible(a, b)
    ensures Keep(m, Combine(a, b)) <==> Keep(m, a) && Keep(m, b)
  {
  }

  /** Filtering by {A, B} is filtering by A, then by B; so its elements are
      those kept by both A and B. */
  lemma {:induction false} FilterCombine(ms: seq<Marker>, a: Criteria, b: Criteria)
    requires Compatible(a, b)
    ensures Filter(ms, Combine(a, b)) == Filter(Filter(ms, a), b)
    ensures forall m :: m in Filter(ms, Combine(a, b)) <==> m in Filter(ms, a) && m in Filter(ms, b)
  {
    if ms != [] {
      FilterCombine(ms[1..], a, b);
      KeepCombine(ms[0], a, b);
      var fa := Filter(ms[1..], a);
      if Keep(ms[0], a) {
        assert Filter(ms, a) == [ms[0]] + fa;
        assert ([ms[0]] + fa)[1..] == fa;
      }
    }
    forall m ensures m in Filter(ms, Combine(a, b)) <==> m in Filter(ms, a) && m in Filter(ms, b) {
      KeepCombine(m, a, b);
    }
  }

  /** A locality filter alone keeps exactly the records of that locality. */
  lemma LocationOnly(m: Marker, f: string)
    requires f != []
    ensures Keep(m, NoCriteria.(location := f)) <==> m.location == Some(f)
  {
  }

  /** A status filter on code k alone keeps exactly the records whose code
      is k, given as a number or as a string (code 0 is never kept, being
      falsy). */
  lemma StatusOnly(m: Marker, k: nat)
    ensures Keep(m, NoCriteria.(status := NatToDecimal(k))) <==>
            (m.statusId == Num(k) && k != 0) || m.statusId == Text(NatToDecimal(k))
  {
    ToStrIsDecimal(m.statusId, k);
  }

  /** The address test ignores the case of the address. */
  lemma AddressCaseInsensitive(a: string, f: string)
    ensures AddressMatch(Some(a), f) <==> AddressMatch(Some(Lower(a)), f)
  {
    LowerIdempotent(a);
  }
}
